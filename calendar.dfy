/**
 * Day arithmetic of the proleptic Gregorian calendar as ECMAScript's `Date`
 * does it: `new Date(y, m, d)` counts days from 1970-01-01, lets a month
 * outside 0..11 or a date outside the month roll over into neighbouring
 * months and years, reads a year 0..99 as 1900..1999, and yields an invalid
 * date (NaN) beyond 100,000,000 days from the epoch.
 */
module Calendar {
  import opened Common

  predicate IsLeap(y: int) {
    y % 4 == 0 && (y % 100 != 0 || y % 400 == 0)
  }

  function DaysInYear(y: int): int {
    if IsLeap(y) then 366 else 365
  }

  /** Days in month `m0` (0 = January .. 11 = December). */
  function DaysInMonth(y: int, m0: int): int
    requires 0 <= m0 < 12
  {
    if m0 == 1 then (if IsLeap(y) then 29 else 28)
    else if m0 == 3 || m0 == 5 || m0 == 8 || m0 == 10 then 30
    else 31
  }

  /** Days of year `y` before the first of month `m0`. */
  function DaysBeforeMonth(y: int, m0: int): int
    requires 0 <= m0 < 12
  {
    [0, 31, 59, 90, 120, 151, 181, 212, 243, 273, 304, 334][m0]
      + (if m0 >= 2 && IsLeap(y) then 1 else 0)
  }

  /** ECMAScript `DayFromYear`: the day number of January 1 of `y`. */
  function DayFromYear(y: int): int {
    365 * (y - 1970) + (y - 1969) / 4 - (y - 1901) / 100 + (y - 1601) / 400
  }

  /**
   * ECMAScript `MakeDay`: months past December carry into later years, months
   * before January borrow from earlier ones, and the date is added to the
   * first of the month, so date 0 is the last day of the previous month.
   */
  function MakeDay(year: int, month: int, date: int): int {
    var ym := year + month / 12;
    var mn := month % 12;
    DayFromYear(ym) + DaysBeforeMonth(ym, mn) + date - 1
  }

  /** The constructor `new Date(y, ...)` reads a year from 0 to 99 as 1900 + y. */
  function FullYear(y: int): int {
    if 0 <= y <= 99 then 1900 + y else y
  }

  /** ECMAScript `TimeClip` bound, in days: 8.64e15 ms is 100,000,000 days. */
  const MaxDays: int := 100_000_000

  /**
   * `new Date(y, m, d)` as a day number, or `None` for the invalid date whose
   * time value is NaN. Time zones are not modelled: every value is a local
   * midnight, so comparing two of them compares their day numbers.
   */
  function NewDate(y: int, m: int, d: int): (r: Option<int>)
    ensures r.Some? ==> r.value == MakeDay(FullYear(y), m, d)
    ensures r.Some? <==> -MaxDays <= MakeDay(FullYear(y), m, d) <= MaxDays
  {
    var day := MakeDay(FullYear(y), m, d);
    if -MaxDays <= day <= MaxDays then Some(day) else None
  }

  /** A month index 12..23 carries one year forward. */
  lemma MakeDayCarry(y: int, m: int, d: int)
    requires 12 <= m < 24
    ensures MakeDay(y, m, d) == MakeDay(y + 1, m - 12, d)
  {
    assert m / 12 == 1 && m % 12 == m - 12;
    assert (m - 12) / 12 == 0 && (m - 12) % 12 == m - 12;
  }

  /** Two constructor calls that name the same day give the same date. */
  lemma SameDaySameDate(y: int, m: int, d: int, y2: int, m2: int, d2: int)
    requires MakeDay(FullYear(y), m, d) == MakeDay(FullYear(y2), m2, d2)
    ensures NewDate(y, m, d) == NewDate(y2, m2, d2)
  {
  }

  /** `a < b` on two dates: false when either is NaN. */
  predicate Before(a: Option<int>, b: Option<int>) {
    a.Some? && b.Some? && a.value < b.value
  }

  /** Consecutive years are `DaysInYear` apart. */
  lemma DayFromYearStep(y: int)
    ensures DayFromYear(y + 1) == DayFromYear(y) + DaysInYear(y)
  {
    var a := if y % 4 == 0 then 1 else 0;
    var b := if y % 100 == 0 then 1 else 0;
    var c := if y % 400 == 0 then 1 else 0;
    assert DayFromYear(y + 1) == DayFromYear(y) + 365 + a - b + c by {
      FourStep(y);
      CenturyStep(y);
      QuadCenturyStep(y);
    }
    assert DaysInYear(y) == 365 + a - b + c by {
      LeapDivisors(y);
    }
  }

  lemma LeapDivisors(y: int)
    ensures y % 400 == 0 ==> y % 100 == 0
    ensures y % 100 == 0 ==> y % 4 == 0
  {
  }

  lemma FourStep(y: int)
    ensures (y - 1968) / 4 - (y - 1969) / 4 == if y % 4 == 0 then 1 else 0
  {
  }

  lemma CenturyStep(y: int)
    ensures (y - 1900) / 100 - (y - 1901) / 100 == if y % 100 == 0 then 1 else 0
  {
  }

  lemma QuadCenturyStep(y: int)
    ensures (y - 1600) / 400 - (y - 1601) / 400 == if y % 400 == 0 then 1 else 0
  {
  }

  /** January 1 moves forward with the year. */
  lemma {:induction false} DayFromYearMonotone(a: int, b: int)
    requires a <= b
    ensures DayFromYear(a) + 365 * (b - a) <= DayFromYear(b)
    decreases b - a
  {
    if a < b {
      DayFromYearStep(a);
      DayFromYearMonotone(a + 1, b);
    }
  }

  /** The months of a year tile it: each starts where the previous one ends. */
  lemma MonthsTile(y: int, m0: int)
    requires 0 <= m0 < 12
    ensures m0 < 11 ==> DaysBeforeMonth(y, m0 + 1) == DaysBeforeMonth(y, m0) + DaysInMonth(y, m0)
    ensures m0 == 11 ==> DaysBeforeMonth(y, m0) + DaysInMonth(y, m0) == DaysInYear(y)
  {
  }

  /** The first day of month `mon` (1..12) of year `y`, as `new Date(y, mon - 1, 1)` computes it. */
  function MonthStart(y: int, mon: int): (r: int)
    requires 1 <= mon <= 12
    ensures r == DayFromYear(y) + DaysBeforeMonth(y, mon - 1)
  {
    assert (mon - 1) / 12 == 0 && (mon - 1) % 12 == mon - 1;
    MakeDay(y, mon - 1, 1)
  }

  /** Inside a year, `MakeDay` is the start of the month plus the date. */
  lemma MakeDayInYear(y: int, m0: int, d: int)
    requires 0 <= m0 < 12
    ensures MakeDay(y, m0, d) == DayFromYear(y) + DaysBeforeMonth(y, m0) + d - 1
  {
    assert m0 / 12 == 0 && m0 % 12 == m0;
  }

  /** `new Date(y, mon, 0)`, day 0 of the following month, is the last day of month `mon`. */
  lemma MonthEndIsLastDay(y: int, mon: int)
    requires 1 <= mon <= 12
    ensures MakeDay(y, mon, 0) == MonthStart(y, mon) + DaysInMonth(y, mon - 1) - 1
  {
    MonthsTile(y, mon - 1);
    if mon == 12 {
      assert 12 / 12 == 1 && 12 % 12 == 0;
      DayFromYearStep(y);
    } else {
      MakeDayInYear(y, mon, 0);
    }
  }

  /** A calendar date that exists: a month 1..12 and a day within it. */
  predicate ValidYmd(y: int, m: int, d: int) {
    1 <= m <= 12 && 1 <= d <= DaysInMonth(y, m - 1)
  }

  /** The first day of the month after (y, mon) comes no earlier than the first of any later month. */
  lemma LaterMonthStartsLater(y: int, mon: int, y2: int, mon2: int)
    requires 1 <= mon <= 12 && 1 <= mon2 <= 12
    requires y < y2 || (y == y2 && mon < mon2)
    ensures MonthStart(y, mon) + DaysInMonth(y, mon - 1) <= MonthStart(y2, mon2)
  {
    if y < y2 {
      var end := DayFromYear(y) + DaysBeforeMonth(y, mon - 1) + DaysInMonth(y, mon - 1);
      assert end <= DayFromYear(y) + DaysInYear(y) by {
        MonthEndsInYear(y, mon);
      }
      assert DayFromYear(y) + DaysInYear(y) <= DayFromYear(y2) by {
        DayFromYearStep(y);
        DayFromYearMonotone(y + 1, y2);
      }
      assert DayFromYear(y2) <= MonthStart(y2, mon2);
    } else {
      assert MonthStart(y, mon) == DayFromYear(y) + DaysBeforeMonth(y, mon - 1);
      assert MonthStart(y2, mon2) == DayFromYear(y) + DaysBeforeMonth(y, mon2 - 1);
      MonthsBeforeLater(y, mon, mon2);
    }
  }

  lemma MonthEndsInYear(y: int, mon: int)
    requires 1 <= mon <= 12
    ensures DaysBeforeMonth(y, mon - 1) + DaysInMonth(y, mon - 1) <= DaysInYear(y)
  {
  }

  lemma MonthsBeforeLater(y: int, mon: int, mon2: int)
    requires 1 <= mon < mon2 <= 12
    ensures DaysBeforeMonth(y, mon - 1) + DaysInMonth(y, mon - 1) <= DaysBeforeMonth(y, mon2 - 1)
  {
  }

  /**
   * An existing date lies between the first and the last day of a month
   * exactly when it is in that month.
   */
  lemma InMonthIff(y: int, mon: int, yy: int, mm: int, dd: int)
    requires 1 <= mon <= 12 && ValidYmd(yy, mm, dd)
    ensures MonthStart(y, mon) <= MakeDay(yy, mm - 1, dd) <= MakeDay(y, mon, 0)
            <==> yy == y && mm == mon
  {
    MonthEndIsLastDay(y, mon);
    MakeDayInYear(yy, mm - 1, dd);
    if yy < y || (yy == y && mm < mon) {
      LaterMonthStartsLater(yy, mm, y, mon);
    } else if y < yy || (y == yy && mon < mm) {
      LaterMonthStartsLater(y, mon, yy, mm);
    }
  }

  /** A day number past the end of the month rolls over: 30 February 2025 is 2 March 2025. */
  lemma RollOverExample()
    ensures MakeDay(2025, 1, 30) == MakeDay(2025, 2, 2)
    ensures MakeDay(2025, 1, 30) > MakeDay(2025, 2, 0)
  {
    MakeDayInYear(2025, 1, 30);
    MakeDayInYear(2025, 2, 2);
    MakeDayInYear(2025, 2, 0);
    assert !IsLeap(2025);
  }
}
