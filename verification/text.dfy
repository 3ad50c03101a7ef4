/** Text operations the application relies on: ASCII case folding, substring
    search, alternation search (a regular expression made of literal
    alternatives joined by `|`), `str.split` on one character, and decimal
    numerals. Strings are sequences of characters. */
module Text {

  // ---------------------------------------------------------------------------
  // Case folding
  // ---------------------------------------------------------------------------

  /** ASCII lower-casing of one character; every other character is its own fold. */
  function LowerChar(c: char): char {
    if 'A' <= c <= 'Z' then (c as int + 32) as char else c
  }

  function Lower(s: string): string {
    seq(|s|, i requires 0 <= i < |s| => LowerChar(s[i]))
  }

  // ---------------------------------------------------------------------------
  // Substrings
  // ---------------------------------------------------------------------------

  predicate IsPrefix(p: string, s: string) {
    |p| <= |s| && s[..|p|] == p
  }

  /** `sub` occurs in `s` starting at position `i`. */
  predicate OccursAt(sub: string, s: string, i: int) {
    0 <= i && i + |sub| <= |s| && s[i..i + |sub|] == sub
  }

  /** Python's `sub in s`, computed by scanning the start positions. */
  predicate Contains(s: string, sub: string)
    decreases |s|
  {
    IsPrefix(sub, s) || (|s| > 0 && Contains(s[1..], sub))
  }

  /** The scan finds `sub` exactly when some start position holds an occurrence. */
  lemma {:induction false} ContainsSpec(s: string, sub: string)
    ensures Contains(s, sub) <==> exists i :: OccursAt(sub, s, i)
    decreases |s|
  {
    if IsPrefix(sub, s) {
      assert OccursAt(sub, s, 0);
    } else if |s| > 0 {
      ContainsSpec(s[1..], sub);
      if Contains(s[1..], sub) {
        var i :| OccursAt(sub, s[1..], i);
        assert s[1..][i..i + |sub|] == s[i + 1..i + 1 + |sub|];
        assert OccursAt(sub, s, i + 1);
      }
      if i :| OccursAt(sub, s, i) {
        assert i != 0;
        assert s[1..][i - 1..i - 1 + |sub|] == s[i..i + |sub|];
        assert OccursAt(sub, s[1..], i - 1);
      }
    }
  }

  /** A text lacking some character of `sub` does not contain `sub`. */
  lemma MissingCharNotContained(s: string, sub: string, k: nat)
    requires k < |sub| && sub[k] !in s
    ensures !Contains(s, sub)
  {
    ContainsSpec(s, sub);
    forall i | 0 <= i && i + |sub| <= |s|
      ensures !OccursAt(sub, s, i)
    {
      assert s[i..i + |sub|][k] == s[i + k];
    }
  }

  /** The empty string occurs in every string. */
  lemma ContainsEmpty(s: string)
    ensures Contains(s, "")
  {
    assert IsPrefix("", s);
  }

  // ---------------------------------------------------------------------------
  // Alternation search: `re.search("a1|a2|...", s)` with literal alternatives
  // ---------------------------------------------------------------------------

  /** Some alternative matches at the start of `s`. */
  predicate AnyPrefix(alts: seq<string>, s: string)
    decreases |alts|
  {
    |alts| > 0 && (IsPrefix(alts[0], s) || AnyPrefix(alts[1..], s))
  }

  /** The regex search scan: try every alternative at position 0, then 1, ... */
  predicate SearchAny(s: string, alts: seq<string>)
    decreases |s|
  {
    AnyPrefix(alts, s) || (|s| > 0 && SearchAny(s[1..], alts))
  }

  lemma {:induction false} AnyPrefixSpec(alts: seq<string>, s: string)
    ensures AnyPrefix(alts, s) <==> exists k :: 0 <= k < |alts| && IsPrefix(alts[k], s)
    decreases |alts|
  {
    if |alts| > 0 {
      AnyPrefixSpec(alts[1..], s);
      if k :| 0 < k < |alts| && IsPrefix(alts[k], s) {
        assert alts[1..][k - 1] == alts[k];
      }
      if k :| 0 <= k < |alts[1..]| && IsPrefix(alts[1..][k], s) {
        assert IsPrefix(alts[k + 1], s);
      }
    }
  }

  /** The alternation matches somewhere exactly when one of its alternatives
      is a substring: the order of the alternatives does not matter. */
  lemma {:induction false} SearchAnySpec(s: string, alts: seq<string>)
    ensures SearchAny(s, alts) <==> exists k :: 0 <= k < |alts| && Contains(s, alts[k])
    decreases |s|
  {
    AnyPrefixSpec(alts, s);
    if |s| > 0 {
      SearchAnySpec(s[1..], alts);
    }
    if SearchAny(s, alts) {
      if AnyPrefix(alts, s) {
        var k :| 0 <= k < |alts| && IsPrefix(alts[k], s);
        assert Contains(s, alts[k]);
      } else {
        var k :| 0 <= k < |alts| && Contains(s[1..], alts[k]);
        assert Contains(s, alts[k]);
      }
    }
    if k :| 0 <= k < |alts| && Contains(s, alts[k]) {
      if !IsPrefix(alts[k], s) {
        assert Contains(s[1..], alts[k]);
      }
    }
  }

  // ---------------------------------------------------------------------------
  // str.split on one separator character, and its inverse str.join
  // ---------------------------------------------------------------------------

  /** Python's `s.split(sep)`: never empty; consecutive or trailing separators
      give empty pieces. */
  function Split(s: string, sep: char): (parts: seq<string>)
    ensures |parts| >= 1
    ensures forall i :: 0 <= i < |parts| ==> sep !in parts[i]
    decreases |s|
  {
    if sep !in s then [s]
    else
      var k := FirstSep(s, sep);
      [s[..k]] + Split(s[k + 1..], sep)
  }

  /** Index of the first `sep` in `s`. */
  function FirstSep(s: string, sep: char): (k: nat)
    requires sep in s
    ensures k < |s| && s[k] == sep && sep !in s[..k]
  {
    if s[0] == sep then 0 else 1 + FirstSep(s[1..], sep)
  }

  /** Python's `sep.join(parts)`. */
  function Join(parts: seq<string>, sep: char): string
    requires |parts| >= 1
  {
    if |parts| == 1 then parts[0] else parts[0] + [sep] + Join(parts[1..], sep)
  }

  /** A join ends with its last piece. */
  lemma {:induction false} JoinEndsWithLast(parts: seq<string>, sep: char)
    requires |parts| >= 1
    ensures var j, last := Join(parts, sep), parts[|parts| - 1];
      |last| <= |j| && j[|j| - |last|..] == last
    decreases |parts|
  {
    if |parts| > 1 {
      var rest := Join(parts[1..], sep);
      var j, last := Join(parts, sep), parts[|parts| - 1];
      JoinEndsWithLast(parts[1..], sep);
      assert parts[1..][|parts| - 2] == last;
      assert j == parts[0] + [sep] + rest;
      assert j[|j| - |last|..] == rest[|rest| - |last|..];
    }
  }

  /** Joining the pieces of a split gives back the original text. */
  lemma {:induction false} JoinSplit(s: string, sep: char)
    ensures Join(Split(s, sep), sep) == s
    decreases |s|
  {
    if sep in s {
      var k := FirstSep(s, sep);
      var rest := s[k + 1..];
      var tail := Split(rest, sep);
      assert Split(s, sep) == [s[..k]] + tail;
      assert Join(Split(s, sep), sep) == s[..k] + [sep] + Join(tail, sep);
      JoinSplit(rest, sep);
      assert s == s[..k] + [sep] + rest;
    }
  }

  /** In `a sep b` with no `sep` in `a`, the first separator follows `a`. */
  lemma FirstSepAfter(a: string, sep: char, b: string)
    requires sep !in a
    ensures var s := a + [sep] + b; sep in s && FirstSep(s, sep) == |a|
    ensures var s := a + [sep] + b; s[..|a|] == a && s[|a| + 1..] == b
  {
    var s := a + [sep] + b;
    assert s[|a|] == sep;
    assert s[..|a|] == a;
    assert s[|a| + 1..] == b;
  }

  /** Splitting a join of separator-free pieces gives back the pieces. */
  lemma {:induction false} SplitJoin(parts: seq<string>, sep: char)
    requires |parts| >= 1
    requires forall i :: 0 <= i < |parts| ==> sep !in parts[i]
    ensures Split(Join(parts, sep), sep) == parts
    decreases |parts|
  {
    if |parts| > 1 {
      var rest := Join(parts[1..], sep);
      assert Join(parts, sep) == parts[0] + [sep] + rest;
      assert sep !in parts[0];
      FirstSepAfter(parts[0], sep, rest);
      SplitJoin(parts[1..], sep);
      assert Split(Join(parts, sep), sep) == [parts[0]] + parts[1..];
    } else {
      assert Join(parts, sep) == parts[0];
      assert sep !in parts[0];
    }
  }

  // ---------------------------------------------------------------------------
  // Decimal numerals
  // ---------------------------------------------------------------------------

  predicate IsDigit(c: char) {
    '0' <= c <= '9'
  }

  predicate AllDigits(s: string) {
    forall i :: 0 <= i < |s| ==> IsDigit(s[i])
  }

  function DigitChar(n: int): (c: char)
    requires 0 <= n <= 9
    ensures IsDigit(c)
  {
    ('0' as int + n) as char
  }

  function DigitValue(c: char): (n: int)
    requires IsDigit(c)
    ensures 0 <= n <= 9
  {
    c as int - '0' as int
  }

  /** The value of a string of ASCII decimal digits. */
  function NumeralValue(s: string): (n: nat)
    requires AllDigits(s)
    decreases |s|
  {
    if |s| == 0 then 0 else NumeralValue(s[..|s| - 1]) * 10 + DigitValue(s[|s| - 1])
  }

  /** `n` written with exactly `width` digits, zero-padded on the left
      (the `%02d` / `%04d` fields of strftime). */
  function Padded(n: nat, width: nat): (s: string)
    ensures |s| == width && AllDigits(s)
    decreases width
  {
    if width == 0 then [] else Padded(n / 10, width - 1) + [DigitChar(n % 10)]
  }

  function Pow10(k: nat): (p: nat)
    ensures p >= 1
  {
    if k == 0 then 1 else 10 * Pow10(k - 1)
  }

  /** A numeral of `k` digits is below 10^k. */
  lemma {:induction false} NumeralBound(s: string)
    requires AllDigits(s)
    ensures NumeralValue(s) < Pow10(|s|)
    decreases |s|
  {
    if |s| > 0 {
      NumeralBound(s[..|s| - 1]);
    }
  }

  /** Reading a zero-padded numeral back gives the number, when it fits the width. */
  lemma {:induction false} PaddedValue(n: nat, width: nat)
    requires n < Pow10(width)
    ensures NumeralValue(Padded(n, width)) == n
    decreases width
  {
    if width > 0 {
      var s := Padded(n, width);
      assert s[..|s| - 1] == Padded(n / 10, width - 1);
      PaddedValue(n / 10, width - 1);
    }
  }

  /** A numeral is the zero-padded rendering of its own value at its own width:
      padding is the only spelling of a value with a given number of digits. */
  lemma {:induction false} PaddedNumeral(s: string)
    requires AllDigits(s)
    ensures Padded(NumeralValue(s), |s|) == s
    decreases |s|
  {
    if |s| > 0 {
      var init, c := s[..|s| - 1], s[|s| - 1];
      var n := NumeralValue(s);
      assert n == NumeralValue(init) * 10 + DigitValue(c);
      assert n / 10 == NumeralValue(init) && n % 10 == DigitValue(c);
      PaddedNumeral(init);
      assert s == init + [c];
    }
  }
}
