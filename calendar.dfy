/**
 * Proleptic Gregorian dates as Python's `datetime.date` has them, the
 * `%Y-%m-%d` rendering the scraper stores, and the three `strptime` formats
 * it parses: `%B %d, %Y`, `%B %Y` and `%b %y` (English month names).
 */
module Calendar {
  import opened Wrappers
  import opened Text

  datatype Date = Date(year: int, month: int, day: int)

  predicate IsLeap(y: int)
  {
    y % 4 == 0 && (y % 100 != 0 || y % 400 == 0)
  }

  function DaysInMonth(y: int, m: int): (n: int)
    requires 1 <= m <= 12
    ensures 28 <= n <= 31
  {
    if m == 2 then (if IsLeap(y) then 29 else 28)
    else if m == 4 || m == 6 || m == 9 || m == 11 then 30
    else 31
  }

  /** The range `datetime.date` accepts: years 1 to 9999 and a real day of the month. */
  predicate Valid(d: Date)
  {
    1 <= d.year <= 9999 && 1 <= d.month <= 12 && 1 <= d.day <= DaysInMonth(d.year, d.month)
  }

  function DaysBeforeYear(y: int): int
    requires y >= 1
  {
    365 * (y - 1) + (y - 1) / 4 - (y - 1) / 100 + (y - 1) / 400
  }

  function DaysBeforeMonth(y: int, m: int): int
    requires 1 <= m <= 12
  {
    if m == 1 then 0 else DaysBeforeMonth(y, m - 1) + DaysInMonth(y, m - 1)
  }

  /** `date.toordinal()`: 1 for 0001-01-01, one more for each following day. */
  function Ordinal(d: Date): int
    requires Valid(d)
  {
    DaysBeforeYear(d.year) + DaysBeforeMonth(d.year, d.month) + d.day
  }

  lemma YearLength(y: int)
    requires y >= 1
    ensures DaysBeforeYear(y + 1) == DaysBeforeYear(y) + (if IsLeap(y) then 366 else 365)
  {
    assert y / 4 - (y - 1) / 4 == (if y % 4 == 0 then 1 else 0);
    assert y / 100 - (y - 1) / 100 == (if y % 100 == 0 then 1 else 0);
    assert y / 400 - (y - 1) / 400 == (if y % 400 == 0 then 1 else 0);
  }

  lemma DaysBeforeDecember(y: int)
    ensures DaysBeforeMonth(y, 12) + 31 == (if IsLeap(y) then 366 else 365)
  {
    var leap := if IsLeap(y) then 1 else 0;
    assert DaysBeforeMonth(y, 2) == 31;
    assert DaysBeforeMonth(y, 3) == 59 + leap;
    assert DaysBeforeMonth(y, 4) == 90 + leap;
    assert DaysBeforeMonth(y, 5) == 120 + leap;
    assert DaysBeforeMonth(y, 6) == 151 + leap;
    assert DaysBeforeMonth(y, 7) == 181 + leap;
    assert DaysBeforeMonth(y, 8) == 212 + leap;
    assert DaysBeforeMonth(y, 9) == 243 + leap;
    assert DaysBeforeMonth(y, 10) == 273 + leap;
    assert DaysBeforeMonth(y, 11) == 304 + leap;
  }

  /** The day before `d` (`d - timedelta(days=1)`). */
  function PrevDay(d: Date): (r: Date)
    requires Valid(d) && d != Date(1, 1, 1)
    ensures Valid(r) && Ordinal(r) == Ordinal(d) - 1
  {
    if d.day > 1 then Date(d.year, d.month, d.day - 1)
    else if d.month > 1 then Date(d.year, d.month - 1, DaysInMonth(d.year, d.month - 1))
    else
      YearLength(d.year - 1);
      DaysBeforeDecember(d.year - 1);
      Date(d.year - 1, 12, 31)
  }

  lemma OrdinalAtLeastDayOfYear(d: Date)
    requires Valid(d)
    ensures Ordinal(d) >= d.day
    ensures d.year > 1 ==> Ordinal(d) > 365
  {
    assert DaysBeforeMonth(d.year, d.month) >= 0 by {
      NonNegativeMonths(d.year, d.month);
    }
  }

  lemma NonNegativeMonths(y: int, m: int)
    requires 1 <= m <= 12
    ensures DaysBeforeMonth(y, m) >= 0
  {
  }

  /** `d - timedelta(days=n)`, one day at a time. */
  function SubDays(d: Date, n: nat): (r: Date)
    requires Valid(d) && Ordinal(d) > n
    ensures Valid(r) && Ordinal(r) == Ordinal(d) - n
    decreases n
  {
    if n == 0 then d
    else
      assert d != Date(1, 1, 1);
      SubDays(PrevDay(d), n - 1)
  }

  /** Later dates have larger ordinals, so ordinals number the valid dates one-to-one. */
  lemma OrdinalStrict(a: Date, b: Date)
    requires Valid(a) && Valid(b) && a != b && Before(a, b)
    ensures Ordinal(a) < Ordinal(b)
  {
    if a.year < b.year {
      YearEndBound(a);
      YearStartBound(b, a.year + 1);
    } else if a.month < b.month {
      MonthsGrow(a.year, a.month + 1, b.month);
    }
  }

  lemma MonthsGrow(y: int, m1: int, m2: int)
    requires 1 <= m1 <= m2 <= 12
    ensures DaysBeforeMonth(y, m2) >= DaysBeforeMonth(y, m1)
    decreases m2 - m1
  {
    if m1 < m2 { MonthsGrow(y, m1, m2 - 1); }
  }

  lemma YearEndBound(d: Date)
    requires Valid(d)
    ensures Ordinal(d) <= DaysBeforeYear(d.year + 1)
  {
    MonthsGrow(d.year, d.month, 12);
    YearLength(d.year);
    DaysBeforeDecember(d.year);
    if d.month < 12 {
      assert DaysBeforeMonth(d.year, d.month + 1) == DaysBeforeMonth(d.year, d.month) + DaysInMonth(d.year, d.month);
      MonthsGrow(d.year, d.month + 1, 12);
    }
  }

  lemma YearStartBound(d: Date, y: int)
    requires Valid(d) && 1 <= y <= d.year
    ensures Ordinal(d) > DaysBeforeYear(y)
    decreases d.year - y
  {
    NonNegativeMonths(d.year, d.month);
    if y < d.year {
      YearStartBound(d, y + 1);
      YearLength(y);
    }
  }

  /** Day order, as `date` objects compare. */
  predicate Before(a: Date, b: Date)
  {
    a.year < b.year || (a.year == b.year && (a.month < b.month || (a.month == b.month && a.day <= b.day)))
  }

  // ---------------------------------------------------------------------
  // strftime("%Y-%m-%d")

  function Pad(n: nat, width: nat): (s: string)
    ensures |s| == width && AllDigits(s)
  {
    if width == 0 then [] else Pad(n / 10, width - 1) + [DigitChar(n % 10)]
  }

  lemma {:induction false} PadValue(n: nat, width: nat, bound: nat)
    requires bound == Power10(width) && n < bound
    ensures NatOf(Pad(n, width)) == n
  {
    if width > 0 {
      var s := Pad(n, width);
      assert s[..|s| - 1] == Pad(n / 10, width - 1);
      PadValue(n / 10, width - 1, Power10(width - 1));
    }
  }

  function Power10(k: nat): (r: nat)
    ensures r >= 1
  {
    if k == 0 then 1 else 10 * Power10(k - 1)
  }

  /** `strftime("%Y-%m-%d")`, the ISO 8601 calendar form stored in the article tables. */
  function IsoFormat(d: Date): (s: string)
    requires Valid(d)
    ensures |s| == 10 && s[4] == '-' && s[7] == '-'
  {
    Pad(d.year as nat, 4) + "-" + Pad(d.month as nat, 2) + "-" + Pad(d.day as nat, 2)
  }

  /** `strftime("%Y-%m") + "-01"`, the month-only rendering. */
  function IsoMonthFormat(d: Date): (s: string)
    requires Valid(d)
  {
    Pad(d.year as nat, 4) + "-" + Pad(d.month as nat, 2) + "-01"
  }

  /** Reading a `YYYY-MM-DD` text back into a date. */
  function IsoParse(s: string): Option<Date>
  {
    if |s| == 10 && s[4] == '-' && s[7] == '-' && AllDigits(s[..4]) && AllDigits(s[5..7]) && AllDigits(s[8..])
    then
      var d := Date(NatOf(s[..4]), NatOf(s[5..7]), NatOf(s[8..]));
      if Valid(d) then Some(d) else None
    else None
  }

  /** The ISO rendering is faithful: it reads back as the same date. */
  lemma IsoRoundTrip(d: Date)
    requires Valid(d)
    ensures IsoParse(IsoFormat(d)) == Some(d)
  {
    var s := IsoFormat(d);
    var y, m, dd := Pad(d.year as nat, 4), Pad(d.month as nat, 2), Pad(d.day as nat, 2);
    assert s[..4] == y && s[5..7] == m && s[8..] == dd;
    PadValue(d.year as nat, 4, 10000);
    PadValue(d.month as nat, 2, 100);
    PadValue(d.day as nat, 2, 100);
  }

  lemma IsoMonthIsFirstDay(d: Date)
    requires Valid(d)
    ensures IsoMonthFormat(d) == IsoFormat(Date(d.year, d.month, 1))
  {
  }
}
