/** Locating the current weekly snapshot (the pure part of `update_dataframe`):
    the date in the expected file name, and the download URL read from the
    catalogue page. The page is an input string; fetching it, fetching the CSV
    and parsing it are not modelled. */
module Snapshot {
  import opened Wrappers
  import opened Text
  import opened Calendar

  // ---------------------------------------------------------------------------
  // The snapshot date
  // ---------------------------------------------------------------------------

  /** `now - timedelta(days=now.weekday() + 1)` with a single reading `today`
      of the clock: the last Sunday strictly before today. None when the
      subtraction leaves the calendar (Python raises OverflowError). */
  function SnapshotDate(today: Date): (r: Option<Date>)
    requires Valid(today)
    ensures r.Some? ==> Valid(r.value) && 1 <= ToOrdinal(today) - ToOrdinal(r.value) <= 7
    ensures r.Some? ==> Weekday(r.value) == Sunday
    ensures r.Some? ==> forall n :: ToOrdinal(r.value) < n < ToOrdinal(today) ==> WeekdayOf(n) != Sunday
    ensures r.None? <==> ToOrdinal(today) <= Weekday(today) + 1
  {
    BackToSunday(ToOrdinal(today));
    DaysBack(today, Weekday(today) + 1)
  }

  /** The expression as written reads the clock twice: the days to go back
      come from the second reading, the date they are subtracted from is the
      first. */
  function SnapshotDateAsWritten(first: Date, second: Date): (r: Option<Date>)
    requires Valid(first) && Valid(second)
    ensures r.Some? ==> Valid(r.value) && ToOrdinal(r.value) == ToOrdinal(first) - Weekday(second) - 1
    ensures r.None? <==> ToOrdinal(first) <= Weekday(second) + 1
  {
    DaysBack(first, Weekday(second) + 1)
  }

  /** With both readings on the same day the two definitions agree. */
  lemma SingleReadingAgrees(today: Date)
    requires Valid(today)
    ensures SnapshotDateAsWritten(today, today) == SnapshotDate(today)
  {
  }

  /** If the clock passes midnight between the two readings (first reading on
      Sunday 2026-10-04, second on Monday 2026-10-05), the file date is the
      Saturday 2026-10-03, not a Sunday. */
  lemma ClockReadTwiceAcrossMidnight()
    ensures SnapshotDateAsWritten(Date(2026, 10, 4), Date(2026, 10, 5)) == Some(Date(2026, 10, 3))
    ensures Weekday(Date(2026, 10, 3)) == 5
  {
    var first, second := Date(2026, 10, 4), Date(2026, 10, 5);
    assert Weekday(second) == 0;
    var r := SnapshotDateAsWritten(first, second);
    assert r.Some? && ToOrdinal(r.value) == ToOrdinal(first) - 1;
    if r.value != Date(2026, 10, 3) {
      OrdinalInjective(r.value, Date(2026, 10, 3));
    }
  }

  // ---------------------------------------------------------------------------
  // The date stamp in the file name
  // ---------------------------------------------------------------------------

  /** `strftime("%Y%m%d")`. */
  function Stamp(d: Date): (s: string)
    requires Valid(d)
    ensures |s| == 8 && AllDigits(s)
  {
    Padded(d.year, 4) + Padded(d.month, 2) + Padded(d.day, 2)
  }

  /** Reads a `YYYYMMDD` stamp back. */
  function StampDate(s: string): Date
    requires |s| == 8 && AllDigits(s)
  {
    Date(NumeralValue(s[..4]), NumeralValue(s[4..6]), NumeralValue(s[6..]))
  }

  /** The stamp names its date unambiguously. */
  lemma StampRoundTrip(d: Date)
    requires Valid(d)
    ensures StampDate(Stamp(d)) == d
  {
    var s := Stamp(d);
    assert s[..4] == Padded(d.year, 4);
    assert s[4..6] == Padded(d.month, 2);
    assert s[6..] == Padded(d.day, 2);
    PaddedValue(d.year, 4);
    PaddedValue(d.month, 2);
    PaddedValue(d.day, 2);
  }

  // ---------------------------------------------------------------------------
  // The regular expression of the catalogue lookup
  // ---------------------------------------------------------------------------

  /** One position of a regular expression without metacharacters other than `.`. */
  datatype Atom = Lit(c: char) | AnyButNewline

  predicate AtomMatches(a: Atom, c: char) {
    match a
    case Lit(x) => c == x
    case AnyButNewline => c != '\n'
  }

  /** The atoms of a text read as a regular expression: `.` matches any
      character but a newline, every other character of the text is literal. */
  function RegexAtoms(s: string): seq<Atom> {
    seq(|s|, i requires 0 <= i < |s| => if s[i] == '.' then AnyButNewline else Lit(s[i]))
  }

  /** The atoms of a text matched literally (as after `re.escape`). */
  function LiteralAtoms(s: string): seq<Atom> {
    seq(|s|, i requires 0 <= i < |s| => Lit(s[i]))
  }

  predicate AtomsMatchAt(p: seq<Atom>, text: string, i: nat) {
    i + |p| <= |text| && forall k :: 0 <= k < |p| ==> AtomMatches(p[k], text[i + k])
  }

  lemma LiteralAtomsMatch(s: string, text: string, i: nat)
    ensures AtomsMatchAt(LiteralAtoms(s), text, i) <==> OccursAt(s, text, i)
  {
    if AtomsMatchAt(LiteralAtoms(s), text, i) {
      forall k | 0 <= k < |s|
        ensures text[i..i + |s|][k] == s[k]
      {
        assert AtomMatches(LiteralAtoms(s)[k], text[i + k]);
      }
      assert text[i..i + |s|] == s;
    }
    if OccursAt(s, text, i) {
      forall k | 0 <= k < |s|
        ensures AtomMatches(LiteralAtoms(s)[k], text[i + k])
      {
        assert text[i + k] == text[i..i + |s|][k];
      }
    }
  }

  /** The pattern `key(head[^"]+)"`; the group is everything after `key`. */
  datatype UrlPattern = UrlPattern(key: seq<Atom>, head: seq<Atom>)

  /** Length of the longest run of characters other than `"` starting at `j`. */
  function QuoteFreeRun(text: string, j: nat): (n: nat)
    requires j <= |text|
    ensures j + n <= |text|
    ensures forall k :: j <= k < j + n ==> text[k] != '"'
    ensures j + n == |text| || text[j + n] == '"'
    decreases |text| - j
  {
    if j == |text| || text[j] == '"' then 0 else 1 + QuoteFreeRun(text, j + 1)
  }

  /** The pattern matches at `i`: the atoms match, then the greedy `[^"]+`
      takes at least one character and a `"` follows it. */
  predicate MatchesAt(p: UrlPattern, text: string, i: nat) {
    && AtomsMatchAt(p.key + p.head, text, i)
    && var j := i + |p.key| + |p.head|;
       var n := QuoteFreeRun(text, j);
       n >= 1 && j + n < |text|
  }

  /** `match.group(1)` for a match at `i`. */
  function CaptureAt(p: UrlPattern, text: string, i: nat): string
    requires MatchesAt(p, text, i)
  {
    var j := i + |p.key| + |p.head|;
    text[i + |p.key|..j + QuoteFreeRun(text, j)]
  }

  /** A captured group is the head followed by at least one non-quote character. */
  lemma CaptureShape(p: UrlPattern, text: string, i: nat)
    requires MatchesAt(p, text, i)
    ensures var url := CaptureAt(p, text, i); |url| > |p.head| && '"' !in url[|p.head|..]
  {
    var j := i + |p.key| + |p.head|;
    var n := QuoteFreeRun(text, j);
    var url := CaptureAt(p, text, i);
    assert url[|p.head|..] == text[j..j + n];
  }

  /** The leftmost start position, from `from` on, where the pattern matches. */
  function FirstMatch(p: UrlPattern, text: string, from: nat): (r: Option<nat>)
    ensures r.Some? ==> from <= r.value && MatchesAt(p, text, r.value)
    ensures r.Some? ==> forall k: nat :: from <= k < r.value ==> !MatchesAt(p, text, k)
    ensures r.None? ==> forall k: nat :: from <= k ==> !MatchesAt(p, text, k)
    decreases |text| + 1 - from
  {
    if from > |text| then None
    else if MatchesAt(p, text, from) then Some(from)
    else FirstMatch(p, text, from + 1)
  }

  /** `url` is the group captured by the leftmost match of `p` in `text`. */
  ghost predicate LeftmostCapture(p: UrlPattern, text: string, url: string) {
    exists i: nat ::
      && MatchesAt(p, text, i)
      && (forall k: nat :: k < i ==> !MatchesAt(p, text, k))
      && url == CaptureAt(p, text, i)
  }

  /** `re.search(pattern, text)` followed by `group(1)`, or None without a match. */
  function Search(p: UrlPattern, text: string): (r: Option<string>)
    ensures r.Some? ==> LeftmostCapture(p, text, r.value)
    ensures r.Some? ==> exists i: nat :: AtomsMatchAt(p.key, text, i) && StartsUrlUpToQuote(text, i + |p.key|, r.value)
    ensures r.Some? ==> |r.value| > |p.head| && '"' !in r.value[|p.head|..]
    ensures r.None? <==> forall i: nat :: !MatchesAt(p, text, i)
  {
    match FirstMatch(p, text, 0)
    case Some(i) =>
      CaptureShape(p, text, i);
      CaptureUpToQuote(p, text, i);
      Some(CaptureAt(p, text, i))
    case None => None
  }

  // ---------------------------------------------------------------------------
  // The catalogue entry
  // ---------------------------------------------------------------------------

  /** The start of every download URL of the dataset's resources. */
  const ResourcePrefix := "https://www.data.gouv.fr/fr/datasets/r/"

  lemma ResourcePrefixHasNoQuote()
    ensures '"' !in ResourcePrefix
  {
  }

  /** The dot after "www" sits at position 11. */
  lemma ResourcePrefixDot()
    ensures ResourcePrefix[11] == '.'
  {
  }

  /** The JSON fragment naming the weekly file, up to the opening quote of its URL. */
  function FileKey(stamp: string): string {
    "\"name\": \"offres-datagouv-" + stamp + ".csv\", \"url\": \""
  }

  /** The page holds, at position `i`, the file's entry with download URL `url`:
      the file key, then `url` (the resource prefix and at least one more
      character, no `"`), then a closing `"`. */
  predicate EntryAt(page: string, stamp: string, i: int, url: string) {
    KeyedUrlAt(page, FileKey(stamp), ResourcePrefix, i, url)
  }

  /** `key`, then `url` (which extends `prefix` by at least one character and
      holds no `"`), then `"`, at position `i` of `page`. */
  predicate KeyedUrlAt(page: string, key: string, prefix: string, i: int, url: string) {
    && OccursAt(key + url + "\"", page, i)
    && IsPrefix(prefix, url)
    && |url| > |prefix|
    && '"' !in url
  }

  /** The pattern the code builds, read as a regular expression: its dots are
      wildcards. */
  function PatternAsWritten(stamp: string): UrlPattern {
    UrlPattern(RegexAtoms(FileKey(stamp)), RegexAtoms(ResourcePrefix))
  }

  /** The pattern with its dots matched literally. */
  function PatternLiteral(stamp: string): UrlPattern {
    UrlPattern(LiteralAtoms(FileKey(stamp)), LiteralAtoms(ResourcePrefix))
  }

  /** Lookup with the pattern as written. */
  function ExtractAsWritten(page: string, stamp: string): (r: Option<string>)
    ensures r.Some? ==> LeftmostCapture(PatternAsWritten(stamp), page, r.value)
    ensures r.Some? ==> exists i: nat ::
      && AtomsMatchAt(RegexAtoms(FileKey(stamp)), page, i)
      && StartsUrlUpToQuote(page, i + |FileKey(stamp)|, r.value)
    ensures r.Some? ==> |r.value| > |ResourcePrefix| && '"' !in r.value[|ResourcePrefix|..]
    ensures r.None? <==> forall i: nat :: !MatchesAt(PatternAsWritten(stamp), page, i)
  {
    WildcardSearch(FileKey(stamp), ResourcePrefix, page)
  }

  /** The search for `key head [^"]+ "` with the dots of `key` and `head` read
      as wildcards. */
  function WildcardSearch(key: string, head: string, text: string): (r: Option<string>)
    ensures r.Some? ==> LeftmostCapture(UrlPattern(RegexAtoms(key), RegexAtoms(head)), text, r.value)
    ensures r.Some? ==> exists i: nat ::
      && AtomsMatchAt(RegexAtoms(key), text, i)
      && StartsUrlUpToQuote(text, i + |key|, r.value)
    ensures r.Some? ==> |r.value| > |head| && '"' !in r.value[|head|..]
    ensures r.None? <==> forall i: nat :: !MatchesAt(UrlPattern(RegexAtoms(key), RegexAtoms(head)), text, i)
  {
    assert |RegexAtoms(key)| == |key| && |RegexAtoms(head)| == |head|;
    Search(UrlPattern(RegexAtoms(key), RegexAtoms(head)), text)
  }

  /** `url` is the text of `page` from position `j` up to, not including, a `"`. */
  predicate StartsUrlUpToQuote(page: string, j: nat, url: string) {
    j + |url| < |page| && page[j..j + |url|] == url && page[j + |url|] == '"'
  }

  /** A capture runs from the end of the key's match to a closing quote. */
  lemma CaptureUpToQuote(p: UrlPattern, text: string, i: nat)
    requires MatchesAt(p, text, i)
    ensures AtomsMatchAt(p.key, text, i)
    ensures StartsUrlUpToQuote(text, i + |p.key|, CaptureAt(p, text, i))
  {
    var j := i + |p.key| + |p.head|;
    assert forall k :: 0 <= k < |p.key| ==> (p.key + p.head)[k] == p.key[k];
  }

  /** Where the literal pattern matches, an entry starts, with the captured URL. */
  lemma MatchIsEntry(page: string, stamp: string, i: nat)
    requires MatchesAt(PatternLiteral(stamp), page, i)
    ensures EntryAt(page, stamp, i, CaptureAt(PatternLiteral(stamp), page, i))
  {
    ResourcePrefixHasNoQuote();
    LiteralMatchIsKeyedUrl(page, FileKey(stamp), ResourcePrefix, i);
  }

  /** A match of the literal pattern `key prefix [^"]+ "` at `i` is an
      occurrence of `key`, the captured URL and a closing quote. */
  lemma LiteralMatchIsKeyedUrl(page: string, key: string, prefix: string, i: nat)
    requires '"' !in prefix
    requires MatchesAt(UrlPattern(LiteralAtoms(key), LiteralAtoms(prefix)), page, i)
    ensures KeyedUrlAt(page, key, prefix, i, CaptureAt(UrlPattern(LiteralAtoms(key), LiteralAtoms(prefix)), page, i))
  {
    var p := UrlPattern(LiteralAtoms(key), LiteralAtoms(prefix));
    assert p.key + p.head == LiteralAtoms(key + prefix);
    LiteralAtomsMatch(key + prefix, page, i);
    var j := i + |key| + |prefix|;
    MatchShape(page, key, prefix, i, QuoteFreeRun(page, j));
  }

  /** The shape of a match of `key prefix [^"]+ "` at `i` whose run of
      non-quote characters has length `n`, with `key` and `prefix` literal. */
  lemma MatchShape(page: string, key: string, prefix: string, i: nat, n: nat)
    requires OccursAt(key + prefix, page, i)
    requires '"' !in prefix
    requires n >= 1 && i + |key| + |prefix| + n < |page| && page[i + |key| + |prefix| + n] == '"'
    requires forall k :: i + |key| + |prefix| <= k < i + |key| + |prefix| + n ==> page[k] != '"'
    ensures KeyedUrlAt(page, key, prefix, i, page[i + |key|..i + |key| + |prefix| + n])
  {
    var mid := i + |key|;
    var j := mid + |prefix|;
    var url := page[mid..j + n];
    var whole := key + url + "\"";
    forall k | 0 <= k < |whole|
      ensures page[i + k] == whole[k]
    {
      if k < |key| {
        assert page[i..j][k] == (key + prefix)[k];
      } else if k < |key| + |prefix| {
        assert page[i..j][k] == (key + prefix)[k];
      }
    }
    assert page[i..i + |whole|] == whole;
    forall k | 0 <= k < |prefix|
      ensures url[k] == prefix[k]
    {
      assert page[i..j][|key| + k] == (key + prefix)[|key| + k];
    }
    assert url[..|prefix|] == prefix;
    forall k | 0 <= k < |url|
      ensures url[k] != '"'
    {
      if k < |prefix| {
        assert url[k] == prefix[k];
      }
    }
  }
  /** Where an entry starts, the literal pattern matches and captures its URL. */
  lemma EntryIsMatch(page: string, stamp: string, i: nat, url: string)
    requires EntryAt(page, stamp, i, url)
    ensures MatchesAt(PatternLiteral(stamp), page, i)
    ensures url == CaptureAt(PatternLiteral(stamp), page, i)
  {
    KeyedUrlIsLiteralMatch(page, FileKey(stamp), ResourcePrefix, i, url);
  }

  /** An occurrence of `key url "` is a match of the literal pattern
      `key prefix [^"]+ "` that captures `url`. */
  lemma KeyedUrlIsLiteralMatch(page: string, key: string, prefix: string, i: nat, url: string)
    requires KeyedUrlAt(page, key, prefix, i, url)
    ensures MatchesAt(UrlPattern(LiteralAtoms(key), LiteralAtoms(prefix)), page, i)
    ensures url == CaptureAt(UrlPattern(LiteralAtoms(key), LiteralAtoms(prefix)), page, i)
  {
    var p := UrlPattern(LiteralAtoms(key), LiteralAtoms(prefix));
    EntryShape(page, key, prefix, i, url);
    var j := i + |key| + |prefix|;
    RunUpToQuote(page, j, |url| - |prefix|);
    assert p.key + p.head == LiteralAtoms(key + prefix);
    LiteralAtomsMatch(key + prefix, page, i);
  }

  /** An occurrence of `key url "` with `url` = `prefix` + a non-empty quote-free
      rest has the shape of a match of `key prefix [^"]+ "` capturing `url`. */
  lemma EntryShape(page: string, key: string, prefix: string, i: nat, url: string)
    requires KeyedUrlAt(page, key, prefix, i, url)
    ensures OccursAt(key + prefix, page, i)
    ensures var j := i + |key| + |prefix|; var m := |url| - |prefix|;
      j + m < |page| && page[j + m] == '"' &&
      (forall k :: j <= k < j + m ==> page[k] != '"') &&
      page[i + |key|..j + m] == url
  {
    var whole := key + url + "\"";
    var j := i + |key| + |prefix|;
    var m := |url| - |prefix|;
    assert page[i..i + |whole|] == whole;
    forall k | 0 <= k < |whole|
      ensures page[i + k] == whole[k]
    {
      assert page[i..i + |whole|][k] == whole[k];
    }
    forall k | 0 <= k < |key| + |prefix|
      ensures page[i + k] == (key + prefix)[k]
    {
      if k >= |key| {
        assert url[..|prefix|][k - |key|] == prefix[k - |key|];
      }
    }
    assert page[i..j] == key + prefix;
    forall k | j <= k < j + m
      ensures page[k] != '"'
    {
      assert page[k] == whole[k - i];
      assert whole[k - i] == url[k - i - |key|];
    }
    assert page[j + m] == whole[j + m - i];
    forall k | 0 <= k < |url|
      ensures page[i + |key|..j + m][k] == url[k]
    {
      assert page[i + |key| + k] == whole[|key| + k];
    }
    assert page[i + |key|..j + m] == url;
  }

  /** A run of `m` non-quote characters followed by a quote is the longest such run. */
  lemma {:induction false} RunUpToQuote(text: string, j: nat, m: nat)
    requires j + m < |text| && text[j + m] == '"'
    requires forall k :: j <= k < j + m ==> text[k] != '"'
    ensures QuoteFreeRun(text, j) == m
    decreases m
  {
    if m > 0 {
      RunUpToQuote(text, j + 1, m - 1);
    }
  }

  /** The catalogue lookup with the dots of the pattern escaped: the URL of the
      leftmost entry of the expected file, or None when the page has no entry. */
  function ExtractCsvUrl(page: string, stamp: string): (r: Option<string>)
    ensures r.Some? ==> IsPrefix(ResourcePrefix, r.value) && |r.value| > |ResourcePrefix| && '"' !in r.value
    ensures r.Some? ==> exists i :: LeftmostEntry(page, stamp, i, r.value)
    ensures r.None? <==> forall i, url :: !EntryAt(page, stamp, i, url)
    ensures !Contains(page, FileKey(stamp)) ==> r.None?
  {
    var p := PatternLiteral(stamp);
    var first := FirstMatch(p, page, 0);
    FirstMatchIsFirstEntry(page, stamp, first);
    if first.Some? then Some(CaptureAt(p, page, first.value)) else None
  }

  /** The leftmost match of the literal pattern is the leftmost entry; no match
      means no entry. */
  lemma FirstMatchIsFirstEntry(page: string, stamp: string, first: Option<nat>)
    requires first == FirstMatch(PatternLiteral(stamp), page, 0)
    ensures first.Some? ==> MatchesAt(PatternLiteral(stamp), page, first.value)
    ensures first.Some? ==> LeftmostEntry(page, stamp, first.value, CaptureAt(PatternLiteral(stamp), page, first.value))
    ensures first.Some? ==> Contains(page, FileKey(stamp))
    ensures first.None? ==> forall i, url :: !EntryAt(page, stamp, i, url)
  {
    var p := PatternLiteral(stamp);
    if first.Some? {
      var i := first.value;
      MatchIsEntry(page, stamp, i);
      NoEarlierEntry(page, stamp, i);
      KeyedUrlHasKey(page, FileKey(stamp), ResourcePrefix, i, CaptureAt(p, page, i));
    } else {
      NoEntryWithoutMatch(page, stamp);
    }
  }

  /** A page holding `key url "` contains `key`. */
  lemma KeyedUrlHasKey(page: string, key: string, prefix: string, i: int, url: string)
    requires KeyedUrlAt(page, key, prefix, i, url)
    ensures Contains(page, key)
  {
    var whole := key + url + "\"";
    assert page[i..i + |key|] == page[i..i + |whole|][..|key|];
    assert OccursAt(key, page, i);
    ContainsSpec(page, key);
  }

  /** `url` is the URL of the first entry of the file on the page. */
  ghost predicate LeftmostEntry(page: string, stamp: string, i: int, url: string) {
    EntryAt(page, stamp, i, url) && forall k, u :: 0 <= k < i ==> !EntryAt(page, stamp, k, u)
  }

  lemma NoEarlierEntry(page: string, stamp: string, i: nat)
    requires forall k: nat :: k < i ==> !MatchesAt(PatternLiteral(stamp), page, k)
    ensures forall k, u :: 0 <= k < i ==> !EntryAt(page, stamp, k, u)
  {
    forall k, u | 0 <= k < i && EntryAt(page, stamp, k, u)
      ensures false
    {
      EntryIsMatch(page, stamp, k, u);
    }
  }

  lemma NoEntryWithoutMatch(page: string, stamp: string)
    requires forall k: nat :: !MatchesAt(PatternLiteral(stamp), page, k)
    ensures forall i, url :: !EntryAt(page, stamp, i, url)
  {
    forall i, url | EntryAt(page, stamp, i, url)
      ensures false
    {
      EntryIsMatch(page, stamp, i, url);
    }
  }

  /** What the page-scraping step yields. */
  datatype Lookup = CsvUrl(url: string) | UrlNotFound | DateOutOfRange

  /** The date of the expected file, then the lookup of its URL in the page. */
  function Locate(today: Date, page: string): (r: Lookup)
    requires Valid(today)
    ensures r.DateOutOfRange? <==> SnapshotDate(today).None?
    ensures r.CsvUrl? ==> IsPrefix(ResourcePrefix, r.url) && |r.url| > |ResourcePrefix| && '"' !in r.url
    ensures r.CsvUrl? ==> exists i :: LeftmostEntry(page, Stamp(SnapshotDate(today).value), i, r.url)
    ensures r.UrlNotFound? <==>
      SnapshotDate(today).Some? && forall i, url :: !EntryAt(page, Stamp(SnapshotDate(today).value), i, url)
  {
    match SnapshotDate(today)
    case None => DateOutOfRange
    case Some(d) =>
      match ExtractCsvUrl(page, Stamp(d))
      case Some(url) => CsvUrl(url)
      case None => UrlNotFound
  }

  /** `update_dataframe` as written up to the URL: two clock readings for the
      date, and the pattern with its dots as wildcards. */
  function LocateAsWritten(first: Date, second: Date, page: string): (r: Lookup)
    requires Valid(first) && Valid(second)
    ensures r.DateOutOfRange? <==> SnapshotDateAsWritten(first, second).None?
    ensures r.CsvUrl? ==> LeftmostCapture(PatternAsWritten(Stamp(SnapshotDateAsWritten(first, second).value)), page, r.url)
    ensures r.UrlNotFound? <==>
      && SnapshotDateAsWritten(first, second).Some?
      && forall i: nat :: !MatchesAt(PatternAsWritten(Stamp(SnapshotDateAsWritten(first, second).value)), page, i)
  {
    match SnapshotDateAsWritten(first, second)
    case None => DateOutOfRange
    case Some(d) =>
      match ExtractAsWritten(page, Stamp(d))
      case Some(url) => CsvUrl(url)
      case None => UrlNotFound
  }

  /** Every match of the literal pattern is also a match of the wildcard one. */
  lemma LiteralMatchIsWildcardMatch(page: string, stamp: string, i: nat)
    requires MatchesAt(PatternLiteral(stamp), page, i)
    ensures MatchesAt(PatternAsWritten(stamp), page, i)
  {
    LiteralAtomsAreWildcardAtoms(FileKey(stamp), ResourcePrefix, page, i);
  }

  lemma LiteralAtomsAreWildcardAtoms(key: string, head: string, text: string, i: nat)
    requires MatchesAt(UrlPattern(LiteralAtoms(key), LiteralAtoms(head)), text, i)
    ensures MatchesAt(UrlPattern(RegexAtoms(key), RegexAtoms(head)), text, i)
  {
    var s := key + head;
    assert LiteralAtoms(key) + LiteralAtoms(head) == LiteralAtoms(s);
    assert RegexAtoms(key) + RegexAtoms(head) == RegexAtoms(s);
    forall k | 0 <= k < |s|
      ensures AtomMatches(RegexAtoms(s)[k], text[i + k])
    {
      assert AtomMatches(LiteralAtoms(s)[k], text[i + k]);
    }
  }

  /** With a single clock reading the code as written finds a URL wherever the
      corrected locator does (possibly an earlier, wildcard-matched one), and
      the two agree on when the date is out of range. */
  lemma AsWrittenFindsWhatLocateFinds(today: Date, page: string)
    requires Valid(today)
    ensures LocateAsWritten(today, today, page).DateOutOfRange? <==> Locate(today, page).DateOutOfRange?
    ensures Locate(today, page).CsvUrl? ==> LocateAsWritten(today, today, page).CsvUrl?
    ensures LocateAsWritten(today, today, page).UrlNotFound? ==> Locate(today, page).UrlNotFound?
  {
    SingleReadingAgrees(today);
    if Locate(today, page).CsvUrl? {
      var stamp := Stamp(SnapshotDate(today).value);
      var i :| LeftmostEntry(page, stamp, i, Locate(today, page).url);
      EntryIsMatch(page, stamp, i, Locate(today, page).url);
      LiteralMatchIsWildcardMatch(page, stamp, i);
    }
  }

  // ---------------------------------------------------------------------------
  // The unescaped dots of the pattern as written
  // ---------------------------------------------------------------------------

  /** Replaces every `.` with `X`. */
  function DotsToX(s: string): (r: string)
    ensures |r| == |s| && '.' !in r
  {
    seq(|s|, i requires 0 <= i < |s| => if s[i] == '.' then 'X' else s[i])
  }

  lemma RegexAtomsMatchDotsToX(s: string, rest: string)
    ensures AtomsMatchAt(RegexAtoms(s), DotsToX(s) + rest, 0)
  {
  }

  /** On the text `key prefix x"` with every dot replaced by `X`, the pattern
      `key(prefix[^"]+)"` read as a regular expression matches at the start and
      captures `prefix` with its dots replaced, followed by `x`. */
  lemma DottedTextMatches(key: string, prefix: string)
    ensures var page := DotsToX(key + prefix) + "x\"";
      var p := UrlPattern(RegexAtoms(key), RegexAtoms(prefix));
      MatchesAt(p, page, 0) && CaptureAt(p, page, 0) == DotsToX(prefix) + "x"
  {
    var page := DotsToX(key + prefix) + "x\"";
    var p := UrlPattern(RegexAtoms(key), RegexAtoms(prefix));
    assert RegexAtoms(key) + RegexAtoms(prefix) == RegexAtoms(key + prefix);
    RegexAtomsMatchDotsToX(key + prefix, "x\"");
    var j := |key| + |prefix|;
    RunUpToQuote(page, j, 1);
    assert DotsToX(key + prefix) == DotsToX(key) + DotsToX(prefix);
    assert page[|key|..j + 1] == DotsToX(prefix) + "x";
  }

  lemma FileKeyHasDot(stamp: string)
    ensures FileKey(stamp)[25 + |stamp|] == '.'
  {
  }

  /** With a page whose dots are all replaced by `X`, the pattern as written
      still matches: it returns a URL on another host than www.data.gouv.fr,
      although the page does not contain the file name, while the literal
      pattern finds nothing. */
  lemma UnescapedDotsMatchOtherText(stamp: string)
    ensures var page := DotsToX(FileKey(stamp) + ResourcePrefix) + "x\"";
      && !Contains(page, FileKey(stamp))
      && ExtractAsWritten(page, stamp) == Some(DotsToX(ResourcePrefix) + "x")
      && !IsPrefix(ResourcePrefix, DotsToX(ResourcePrefix) + "x")
      && ExtractCsvUrl(page, stamp) == None
  {
    var key := FileKey(stamp);
    var page := DotsToX(key + ResourcePrefix) + "x\"";
    assert '.' !in page by {
      assert page == DotsToX(key + ResourcePrefix) + ['x', '"'];
    }
    FileKeyHasDot(stamp);
    MissingCharNotContained(page, key, 25 + |stamp|);
    DottedTextMatches(key, ResourcePrefix);
    ResourcePrefixHasNoQuote();
    ResourcePrefixDot();
    assert (DotsToX(ResourcePrefix) + "x")[11] == DotsToX(ResourcePrefix)[11] == 'X';
  }
}
