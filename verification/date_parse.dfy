/** `pd.to_datetime(column, format='%d/%m/%Y', errors='coerce')` on one cell:
    the day, month and year fields are read with the token patterns of
    Python's `_strptime` (day `3[01]|[12]\d|0[1-9]|[1-9]| [1-9]`, month
    `1[0-2]|0[1-9]|[1-9]`, year four digits), the whole cell must be consumed,
    the day must exist in its month, and the date must lie inside the range of
    a pandas Timestamp. Anything else becomes NaT, modelled as None. */
module DateParse {
  import opened Wrappers
  import opened Text
  import opened Calendar

  /** A `%d` field: two characters from 01..31, one digit 1..9, or a space and a digit 1..9. */
  function DayField(t: string): (r: Option<int>)
    ensures r.Some? ==> 1 <= r.value <= 31
  {
    if |t| == 1 && '1' <= t[0] <= '9' then Some(DigitValue(t[0]))
    else if |t| == 2 && t[0] == ' ' && '1' <= t[1] <= '9' then Some(DigitValue(t[1]))
    else if |t| == 2 && (t[0] == '0' || t[0] == '1' || t[0] == '2' || t[0] == '3') && IsDigit(t[1]) then
      var v := DigitValue(t[0]) * 10 + DigitValue(t[1]);
      if 1 <= v <= 31 then Some(v) else None
    else None
  }

  /** A `%m` field: two characters from 01..12 or one digit 1..9. */
  function MonthField(t: string): (r: Option<int>)
    ensures r.Some? ==> 1 <= r.value <= 12
  {
    if |t| == 1 && '1' <= t[0] <= '9' then Some(DigitValue(t[0]))
    else if |t| == 2 && (t[0] == '0' || t[0] == '1') && IsDigit(t[1]) then
      var v := DigitValue(t[0]) * 10 + DigitValue(t[1]);
      if 1 <= v <= 12 then Some(v) else None
    else None
  }

  /** A `%Y` field: exactly four digits. */
  function YearField(t: string): (r: Option<int>)
    ensures r.Some? ==> 0 <= r.value <= 9999
  {
    if |t| == 4 && AllDigits(t) then
      NumeralBound(t);
      assert Pow10(4) == 10000;
      Some(NumeralValue(t))
    else None
  }


  /** Ordering key of a date: later dates have larger keys. */
  function DateKey(d: Date): int {
    d.year * 10000 + d.month * 100 + d.day
  }

  /** The first and last calendar days a pandas Timestamp can hold at midnight
      (1677-09-22 and 2262-04-11). */
  predicate InTimestampRange(d: Date) {
    DateKey(Date(1677, 9, 22)) <= DateKey(d) <= DateKey(Date(2262, 4, 11))
  }

  /** One cell of the publication-date column, parsed, or None (NaT). */
  function ParseDayMonthYear(cell: Option<string>): (r: Option<Date>)
    ensures r.Some? ==> Valid(r.value) && InTimestampRange(r.value)
  {
    match cell
    case None => None
    case Some(text) =>
      var parts := Split(text, '/');
      if |parts| != 3 then None
      else
        match (DayField(parts[0]), MonthField(parts[1]), YearField(parts[2]))
        case (Some(d), Some(m), Some(y)) =>
          var date := Date(y, m, d);
          if d <= DaysInMonth(y, m) && InTimestampRange(date) then Some(date) else None
        case _ => None
  }

  /** The canonical `dd/mm/yyyy` rendering of a date. */
  function FormatDayMonthYear(d: Date): string
    requires Valid(d)
  {
    Join([Padded(d.day, 2), Padded(d.month, 2), Padded(d.year, 4)], '/')
  }

  lemma TwoDigitField(n: nat)
    requires 1 <= n <= 31
    ensures DayField(Padded(n, 2)) == Some(n)
    ensures n <= 12 ==> MonthField(Padded(n, 2)) == Some(n)
  {
    var t := Padded(n, 2);
    var hi, lo := n / 10, n % 10;
    assert n == hi * 10 + lo && 0 <= hi <= 3 && 0 <= lo <= 9;
    assert t == Padded(hi, 1) + [DigitChar(lo)];
    assert Padded(hi, 1) == Padded(hi / 10, 0) + [DigitChar(hi % 10)];
    assert hi % 10 == hi;
    assert t[0] == DigitChar(hi) && t[1] == DigitChar(lo);
    assert DigitValue(t[0]) == hi && DigitValue(t[1]) == lo;
  }

  /** Every date a Timestamp can hold survives a trip through its `dd/mm/yyyy`
      text: rendering then parsing gives the same date back. */
  lemma ParseFormat(d: Date)
    requires Valid(d) && InTimestampRange(d)
    ensures ParseDayMonthYear(Some(FormatDayMonthYear(d))) == Some(d)
  {
    TwoDigitField(d.day);
    TwoDigitField(d.month);
    YearFieldSpelling(Padded(d.year, 4), d.year);
    JoinThree(Padded(d.day, 2), Padded(d.month, 2), Padded(d.year, 4));
    FieldsParse(Padded(d.day, 2), Padded(d.month, 2), Padded(d.year, 4), d);
  }

  // ---------------------------------------------------------------------------
  // Every accepted spelling
  // ---------------------------------------------------------------------------

  /** The texts `%d` reads as day n: two digits, and below 10 also the bare
      digit or a space and the digit. */
  function DaySpellings(n: nat): set<string> {
    {Padded(n, 2)} + (if 1 <= n <= 9 then {[DigitChar(n)], [' ', DigitChar(n)]} else {})
  }

  /** The texts `%m` reads as month n: two digits, and below 10 also the bare digit. */
  function MonthSpellings(n: nat): set<string> {
    {Padded(n, 2)} + (if 1 <= n <= 9 then {[DigitChar(n)]} else {})
  }

  /** The cells that `%d/%m/%Y` accepts as the date d. */
  function Spellings(d: Date): set<string>
    requires Valid(d)
  {
    set a, b | a in DaySpellings(d.day) && b in MonthSpellings(d.month) :: a + "/" + b + "/" + Padded(d.year, 4)
  }

  lemma DigitRoundTrip(c: char)
    requires IsDigit(c)
    ensures DigitChar(DigitValue(c)) == c
  {
  }

  lemma TwoDigits(t: string)
    requires |t| == 2 && AllDigits(t)
    ensures Padded(DigitValue(t[0]) * 10 + DigitValue(t[1]), 2) == t
  {
    var hi, lo := DigitValue(t[0]), DigitValue(t[1]);
    var v := hi * 10 + lo;
    assert v / 10 == hi && v % 10 == lo;
    assert Padded(hi, 1) == Padded(hi / 10, 0) + [DigitChar(hi % 10)];
    assert hi % 10 == hi;
    DigitRoundTrip(t[0]);
    DigitRoundTrip(t[1]);
    assert Padded(v, 2) == Padded(hi, 1) + [DigitChar(lo)];
  }

  lemma DayFieldSpellings(t: string, n: nat)
    ensures DayField(t) == Some(n) <==> 1 <= n <= 31 && t in DaySpellings(n)
  {
    if DayField(t) == Some(n) {
      DayFieldIsSpelling(t, n);
    }
    if 1 <= n <= 31 && t in DaySpellings(n) {
      if t == Padded(n, 2) {
        TwoDigitField(n);
      }
    }
  }

  lemma DayFieldIsSpelling(t: string, n: nat)
    requires DayField(t) == Some(n)
    ensures t in DaySpellings(n)
  {
    if |t| == 2 && IsDigit(t[0]) {
      TwoDigits(t);
    } else {
      DigitRoundTrip(t[|t| - 1]);
      assert t == [DigitChar(n)] || t == [' ', DigitChar(n)];
    }
  }

  lemma MonthFieldSpellings(t: string, n: nat)
    ensures MonthField(t) == Some(n) <==> 1 <= n <= 12 && t in MonthSpellings(n)
  {
    if MonthField(t) == Some(n) {
      if |t| == 2 {
        TwoDigits(t);
      } else {
        DigitRoundTrip(t[0]);
        assert t == [DigitChar(n)];
      }
    }
    if 1 <= n <= 12 && t in MonthSpellings(n) {
      if t == Padded(n, 2) {
        TwoDigitField(n);
      }
    }
  }

  lemma YearFieldSpelling(t: string, n: nat)
    ensures YearField(t) == Some(n) <==> n <= 9999 && t == Padded(n, 4)
  {
    if YearField(t) == Some(n) {
      PaddedNumeral(t);
    }
    if n <= 9999 && t == Padded(n, 4) {
      assert Pow10(4) == 10000;
      PaddedValue(n, 4);
    }
  }

  /** No field the parser accepts holds the separator. */
  lemma FieldsHaveNoSlash(a: string, b: string, y: string)
    requires DayField(a).Some? && MonthField(b).Some? && YearField(y).Some?
    ensures '/' !in a && '/' !in b && '/' !in y
  {
  }

  /** A cell parses to d exactly when d is a real date a Timestamp can hold
      and the cell is one of its accepted spellings; every other cell is NaT. */
  lemma ParseSpellings(t: string, d: Date)
    ensures ParseDayMonthYear(Some(t)) == Some(d) <==> Valid(d) && InTimestampRange(d) && t in Spellings(d)
  {
    if ParseDayMonthYear(Some(t)) == Some(d) {
      ParsedIsSpelling(t, d);
    }
    if Valid(d) && InTimestampRange(d) && t in Spellings(d) {
      var a, b :| a in DaySpellings(d.day) && b in MonthSpellings(d.month)
        && t == a + "/" + b + "/" + Padded(d.year, 4);
      SpellingParses(a, b, d);
    }
  }

  lemma ParsedIsSpelling(t: string, d: Date)
    requires ParseDayMonthYear(Some(t)) == Some(d)
    ensures Valid(d) && t in Spellings(d)
  {
    var parts := ParsedFields(t, d);
    DayFieldSpellings(parts[0], d.day);
    MonthFieldSpellings(parts[1], d.month);
    YearFieldSpelling(parts[2], d.year);
    assert t == parts[0] + "/" + parts[1] + "/" + Padded(d.year, 4);
  }

  /** A parsed cell is its three fields joined by `/`, each naming its part of the date. */
  lemma ParsedFields(t: string, d: Date) returns (parts: seq<string>)
    requires ParseDayMonthYear(Some(t)) == Some(d)
    ensures |parts| == 3 && t == parts[0] + "/" + parts[1] + "/" + parts[2]
    ensures DayField(parts[0]) == Some(d.day) && MonthField(parts[1]) == Some(d.month)
    ensures YearField(parts[2]) == Some(d.year)
  {
    parts := Split(t, '/');
    assert |parts| == 3;
    JoinSplit(t, '/');
    assert parts == [parts[0], parts[1], parts[2]];
    JoinThree(parts[0], parts[1], parts[2]);
  }

  lemma SpellingParses(a: string, b: string, d: Date)
    requires Valid(d) && InTimestampRange(d)
    requires a in DaySpellings(d.day) && b in MonthSpellings(d.month)
    ensures ParseDayMonthYear(Some(a + "/" + b + "/" + Padded(d.year, 4))) == Some(d)
  {
    var y := Padded(d.year, 4);
    DayFieldSpellings(a, d.day);
    MonthFieldSpellings(b, d.month);
    YearFieldSpelling(y, d.year);
    FieldsParse(a, b, y, d);
  }

  /** Three accepted fields joined by `/` parse to the date they name, when it is real. */
  lemma FieldsParse(a: string, b: string, y: string, d: Date)
    requires Valid(d) && InTimestampRange(d)
    requires DayField(a) == Some(d.day) && MonthField(b) == Some(d.month) && YearField(y) == Some(d.year)
    ensures ParseDayMonthYear(Some(a + "/" + b + "/" + y)) == Some(d)
  {
    FieldsHaveNoSlash(a, b, y);
    JoinThree(a, b, y);
    SplitJoin([a, b, y], '/');
  }

  lemma JoinThree(a: string, b: string, c: string)
    ensures Join([a, b, c], '/') == a + "/" + b + "/" + c
  {
    assert [a, b, c][1..] == [b, c];
    assert [b, c][1..] == [c];
    assert Join([b, c], '/') == b + ['/'] + c;
    assert "/" == ['/'];
  }
}
