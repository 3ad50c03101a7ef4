/** The proleptic Gregorian calendar of Python's `datetime.date`: dates are
    (year, month, day) triples, numbered by `toordinal` (0001-01-01 is day 1)
    and given a weekday with Monday = 0 ... Sunday = 6. */
module Calendar {
  import opened Wrappers

  datatype Date = Date(year: int, month: int, day: int)

  const MinYear := 1
  const MaxYear := 9999

  predicate IsLeap(y: int) {
    y % 4 == 0 && (y % 100 != 0 || y % 400 == 0)
  }

  function DaysInYear(y: int): int {
    if IsLeap(y) then 366 else 365
  }

  function DaysInMonth(y: int, m: int): int
    requires 1 <= m <= 12
  {
    if m == 2 then (if IsLeap(y) then 29 else 28)
    else if m == 4 || m == 6 || m == 9 || m == 11 then 30
    else 31
  }

  /** A date `datetime.date` accepts. */
  predicate Valid(d: Date) {
    MinYear <= d.year <= MaxYear && 1 <= d.month <= 12 && 1 <= d.day <= DaysInMonth(d.year, d.month)
  }

  /** Days in the years before `y` (Python's `_days_before_year`). */
  function DaysBeforeYear(y: int): int
    requires y >= 1
  {
    var p := y - 1;
    p * 365 + p / 4 - p / 100 + p / 400
  }

  /** Days in the months of year `y` before month `m` (Python's `_days_before_month`). */
  function DaysBeforeMonth(y: int, m: int): int
    requires 1 <= m <= 12
  {
    [0, 0, 31, 59, 90, 120, 151, 181, 212, 243, 273, 304, 334][m]
      + (if m > 2 && IsLeap(y) then 1 else 0)
  }

  /** Python's `date.toordinal()`. */
  function ToOrdinal(d: Date): int
    requires Valid(d)
  {
    DaysBeforeYear(d.year) + DaysBeforeMonth(d.year, d.month) + d.day
  }

  /** Weekday of a day number: Monday = 0 ... Sunday = 6. */
  function WeekdayOf(n: int): int {
    (n + 6) % 7
  }

  /** Python's `date.weekday()`. */
  function Weekday(d: Date): int
    requires Valid(d)
  {
    WeekdayOf(ToOrdinal(d))
  }

  const Sunday := 6

  /** Going back `WeekdayOf(n) + 1` days from day `n` lands on a Sunday, and no
      day strictly in between is a Sunday. */
  lemma BackToSunday(n: int)
    ensures WeekdayOf(n - WeekdayOf(n) - 1) == Sunday
    ensures forall m :: n - WeekdayOf(n) - 1 < m < n ==> WeekdayOf(m) != Sunday
  {
    var w := WeekdayOf(n);
    var q := (n + 6) / 7;
    assert n + 6 == 7 * q + w;
    assert n - w - 1 + 6 == 7 * (q - 1) + 6;
    forall m | n - w - 1 < m < n
      ensures WeekdayOf(m) != Sunday
    {
      var d := n - m;
      assert m + 6 == 7 * q + (w - d);
      assert 0 <= w - d < 6;
    }
  }

  lemma DaysBeforeYearStep(y: int)
    requires y >= 1
    ensures DaysBeforeYear(y + 1) == DaysBeforeYear(y) + DaysInYear(y)
  {
    var p := y - 1;
    DivSucc(p, 4);
    DivSucc(p, 100);
    DivSucc(p, 400);
    if y % 400 == 0 {
      DivExact(y, 100, 4 * (y / 400));
    }
    if y % 100 == 0 {
      DivExact(y, 4, 25 * (y / 100));
    }
  }

  /** Moving from `p` to `p + 1` raises `p / k` by one exactly at the multiples of `k`. */
  lemma DivSucc(p: int, k: int)
    requires p >= 0 && k > 0
    ensures (p + 1) / k == p / k + (if (p + 1) % k == 0 then 1 else 0)
  {
    var q, r := p / k, p % k;
    assert p == k * q + r && 0 <= r < k;
    if r + 1 == k {
      assert p + 1 == k * (q + 1);
      DivExact(p + 1, k, q + 1);
    } else {
      assert p + 1 == k * q + (r + 1);
      DivRest(p + 1, k, q, r + 1);
    }
  }

  lemma DivExact(n: int, k: int, q: int)
    requires k > 0 && n == k * q
    ensures n / k == q && n % k == 0
  {
    DivRest(n, k, q, 0);
  }

  /** Division is determined by quotient and remainder. */
  lemma DivRest(n: int, k: int, q: int, r: int)
    requires k > 0 && 0 <= r < k && n == k * q + r
    ensures n / k == q && n % k == r
  {
    var q', r' := n / k, n % k;
    assert n == k * q' + r' && 0 <= r' < k;
    if q' > q {
      MulMono(k, q + 1, q');
    } else if q' < q {
      MulMono(k, q' + 1, q);
    }
  }

  lemma MulMono(k: int, a: int, b: int)
    requires k > 0 && a <= b
    ensures k * a <= k * b
  {
    assert k * b - k * a == k * (b - a);
  }

  lemma DaysBeforeMonthStep(y: int, m: int)
    requires 1 <= m < 12
    ensures DaysBeforeMonth(y, m + 1) == DaysBeforeMonth(y, m) + DaysInMonth(y, m)
  {
  }

  /** Every valid date has day number at least 1, and only 0001-01-01 has day number 1. */
  lemma OrdinalPositive(d: Date)
    requires Valid(d)
    ensures ToOrdinal(d) >= 1
    ensures ToOrdinal(d) == 1 <==> d == Date(1, 1, 1)
  {
    var p := d.year - 1;
    assert p / 4 - p / 100 >= 0;
    assert p / 400 >= 0;
  }

  /** The day before `d`, or None when `d` is the first representable date
      (Python raises OverflowError there). */
  function PrevDay(d: Date): (r: Option<Date>)
    requires Valid(d)
    ensures r.Some? ==> Valid(r.value) && ToOrdinal(r.value) == ToOrdinal(d) - 1
    ensures r.None? <==> ToOrdinal(d) == 1
  {
    OrdinalPositive(d);
    if d.day > 1 then
      DayBeforeInMonth(d);
      Some(Date(d.year, d.month, d.day - 1))
    else if d.month > 1 then
      LastDayOfMonth(d.year, d.month - 1);
      Some(Date(d.year, d.month - 1, DaysInMonth(d.year, d.month - 1)))
    else if d.year > MinYear then
      LastDayOfYear(d.year - 1);
      Some(Date(d.year - 1, 12, 31))
    else None
  }

  /** Within a month, the previous day number is the previous day. */
  lemma DayBeforeInMonth(d: Date)
    requires Valid(d) && d.day > 1
    ensures Valid(Date(d.year, d.month, d.day - 1))
    ensures ToOrdinal(Date(d.year, d.month, d.day - 1)) == ToOrdinal(d) - 1
  {
  }

  /** The last day of a month is followed by the first day of the next month. */
  lemma LastDayOfMonth(y: int, m: int)
    requires MinYear <= y <= MaxYear && 1 <= m < 12
    ensures Valid(Date(y, m, DaysInMonth(y, m))) && Valid(Date(y, m + 1, 1))
    ensures ToOrdinal(Date(y, m, DaysInMonth(y, m))) + 1 == ToOrdinal(Date(y, m + 1, 1))
  {
    DaysBeforeMonthStep(y, m);
  }

  /** December 31 is followed by January 1 of the next year. */
  lemma LastDayOfYear(y: int)
    requires MinYear <= y < MaxYear
    ensures Valid(Date(y, 12, 31)) && Valid(Date(y + 1, 1, 1))
    ensures ToOrdinal(Date(y, 12, 31)) + 1 == ToOrdinal(Date(y + 1, 1, 1))
  {
    DaysBeforeYearStep(y);
    assert DaysBeforeMonth(y, 12) + 31 == DaysInYear(y);
  }

  /** `d - timedelta(days=k)`, or None when the result would fall before
      0001-01-01 (OverflowError). */
  function DaysBack(d: Date, k: nat): (r: Option<Date>)
    requires Valid(d)
    ensures r.Some? ==> Valid(r.value) && ToOrdinal(r.value) == ToOrdinal(d) - k
    ensures r.None? <==> ToOrdinal(d) - k < 1
    decreases k
  {
    if k == 0 then (OrdinalPositive(d); Some(d))
    else
      match PrevDay(d)
      case None => None
      case Some(e) => DaysBack(e, k - 1)
  }

  /** Different valid dates have different day numbers. */
  lemma OrdinalInjective(a: Date, b: Date)
    requires Valid(a) && Valid(b) && a != b
    ensures ToOrdinal(a) != ToOrdinal(b)
  {
    if a.year < b.year {
      YearsApart(a, b);
    } else if b.year < a.year {
      YearsApart(b, a);
    } else if a.month < b.month {
      MonthsApart(a.year, a.month, b.month);
    } else if b.month < a.month {
      MonthsApart(a.year, b.month, a.month);
    }
  }

  lemma {:induction false} MonthsApart(y: int, m1: int, m2: int)
    requires 1 <= m1 < m2 <= 12
    ensures DaysBeforeMonth(y, m2) >= DaysBeforeMonth(y, m1) + DaysInMonth(y, m1)
    decreases m2 - m1
  {
    DaysBeforeMonthStep(y, m1);
    if m1 + 1 < m2 {
      MonthsApart(y, m1 + 1, m2);
    }
  }

  lemma YearsApart(a: Date, b: Date)
    requires Valid(a) && Valid(b) && a.year < b.year
    ensures ToOrdinal(a) < ToOrdinal(b)
  {
    DaysBeforeYearMonotone(a.year + 1, b.year);
    DaysBeforeYearStep(a.year);
    if a.month < 12 {
      MonthsApart(a.year, a.month, 12);
    }
  }

  lemma {:induction false} DaysBeforeYearMonotone(y1: int, y2: int)
    requires 1 <= y1 <= y2
    ensures DaysBeforeYear(y1) <= DaysBeforeYear(y2)
    decreases y2 - y1
  {
    if y1 < y2 {
      DaysBeforeYearStep(y1);
      DaysBeforeYearMonotone(y1 + 1, y2);
    }
  }
}
