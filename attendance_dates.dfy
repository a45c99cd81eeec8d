/**
 * The month window of `/attendance-summary`: a `YYYY-MM` month gives
 * `new Date(year, mon - 1, 1)` and `new Date(year, mon, 0)`, and a raw date key
 * is kept when it normalises and the date `new Date(y, mm - 1, dd)` it names
 * lies between the two.
 */
module AttendanceDates {
  import opened Common
  import opened Text
  import opened Calendar
  import opened DateKeys

  /** `/^\d{4}-\d{2}$/.test(month)`. */
  predicate MonthFormat(month: string) {
    |month| == 7 && AllDigits(month[..4]) && month[4] == '-' && AllDigits(month[5..])
  }

  /** `const [yearStr, monStr] = month.split('-')` on a well-formed month. */
  lemma MonthSplit(month: string)
    requires MonthFormat(month)
    ensures Split(month, '-') == [month[..4], month[5..]]
  {
    assert '-' !in month[..4] && '-' !in month[5..] by {
      assert forall s: string :: AllDigits(s) ==> '-' !in s;
    }
    assert month == month[..4] + ['-'] + month[5..];
    SplitCons(month[..4], '-', month[5..]);
    SplitNoSep(month[5..], '-');
  }

  /** The first and the last day of the requested month; `None` is an invalid date. */
  datatype Window = Window(start: Option<int>, end: Option<int>)

  /** `monthStart = new Date(year, mon - 1, 1)`, `monthEnd = new Date(year, mon, 0)`. */
  function MonthWindow(year: int, mon: int): Window {
    Window(NewDate(year, mon - 1, 1), NewDate(year, mon, 0))
  }

  /** The date a key names, `new Date(y, mm - 1, dd)`, rolled over as the constructor does. */
  function KeyDate(d: Ymd): Option<int> {
    NewDate(d.y, d.m - 1, d.d)
  }

  /** The handler's test, `!(dt < monthStart || dt > monthEnd)`: both comparisons are false on NaN. */
  predicate PassesAsWritten(dt: Option<int>, w: Window) {
    !(Before(dt, w.start) || Before(w.end, dt))
  }

  /** The intended test: a valid date no earlier than the first day and no later than the last. */
  predicate InWindow(dt: Option<int>, w: Window) {
    dt.Some? && w.start.Some? && w.end.Some? && w.start.value <= dt.value <= w.end.value
  }

  /**
   * The two tests agree on valid dates, but the written one also lets the
   * invalid date through: the key `300000-01-15` normalises (its year is
   * after 1900) yet names no valid `Date`, so it passes for every month.
   */
  lemma InvalidDatePassesAsWritten(year: int, mon: int)
    ensures forall dt: Option<int>, w: Window :: dt.Some? && w.start.Some? && w.end.Some? ==>
      (PassesAsWritten(dt, w) <==> InWindow(dt, w))
    ensures ParseYmd(ToKey(300000, 1, 15)) == Some(Ymd(300000, 1, 15))
    ensures KeyDate(Ymd(300000, 1, 15)).None?
    ensures PassesAsWritten(KeyDate(Ymd(300000, 1, 15)), MonthWindow(year, mon))
    ensures !InWindow(KeyDate(Ymd(300000, 1, 15)), MonthWindow(year, mon))
  {
    ParseOfKey(300000, 1, 15);
    FarYearIsInvalid();
  }

  lemma FarYearIsInvalid()
    ensures KeyDate(Ymd(300000, 1, 15)).None?
  {
    assert 298031 / 4 == 74507 && 298099 / 100 == 2980 && 298399 / 400 == 745;
    assert DayFromYear(300000) == 108853222;
    assert 0 / 12 == 0 && 0 % 12 == 0;
    assert MakeDay(300000, 0, 15) == 108853236;
  }

  /** What the summary keeps of a raw date key: its normalised form, when its date is in the window. */
  function KeepKey(raw: string, w: Window): (r: Option<string>)
    ensures r.Some? ==> NormalizeDateKey(raw) == r
    ensures r.Some? <==> ParseYmd(raw).Some? && InWindow(KeyDate(ParseYmd(raw).value), w)
  {
    match ParseYmd(raw)
    case None => None
    case Some(d) => if InWindow(KeyDate(d), w) then Some(ToKey(d.y, d.m, d.d)) else None
  }

  /** A key of the `dates` answer: a normalised key whose date is in the window. */
  predicate KeptKey(k: string, w: Window) {
    ParseYmd(k).Some? && (var d := ParseYmd(k).value;
      k == ToKey(d.y, d.m, d.d) && InWindow(KeyDate(d), w))
  }

  /** Every key `KeepKey` returns is a kept key, and keeping it again returns it unchanged. */
  lemma KeepKeyKept(raw: string, w: Window)
    requires KeepKey(raw, w).Some?
    ensures KeptKey(KeepKey(raw, w).value, w)
    ensures KeepKey(KeepKey(raw, w).value, w) == KeepKey(raw, w)
  {
    var d := ParseYmd(raw).value;
    ParseOfKey(d.y, d.m, d.d);
  }

  /**
   * For a month 1..12 whose window is valid, an existing date is in the
   * window exactly when it is a day of that month.
   */
  lemma InWindowIffSameMonth(year: int, mon: int, d: Ymd)
    requires 100 <= year && 1 <= mon <= 12
    requires Plausible(d.y, d.m, d.d) && ValidYmd(d.y, d.m, d.d) && KeyDate(d).Some?
    requires MonthWindow(year, mon).start.Some? && MonthWindow(year, mon).end.Some?
    ensures InWindow(KeyDate(d), MonthWindow(year, mon)) <==> d.y == year && d.m == mon
  {
    var w := MonthWindow(year, mon);
    assert FullYear(d.y) == d.y && FullYear(year) == year;
    assert KeyDate(d).value == MakeDay(d.y, d.m - 1, d.d);
    assert w.start.value == MonthStart(year, mon);
    assert w.end.value == MakeDay(year, mon, 0);
    InMonthIff(year, mon, d.y, d.m, d.d);
  }

  /** A day past the end of a month rolls over: the key 2025-02-30 counts for March, not February. */
  lemma RolledOverKey()
    ensures InWindow(KeyDate(Ymd(2025, 2, 30)), MonthWindow(2025, 3))
    ensures !InWindow(KeyDate(Ymd(2025, 2, 30)), MonthWindow(2025, 2))
  {
    assert DaysBeforeMonth(2025, 1) == 31 && DaysBeforeMonth(2025, 2) == 59 && DaysBeforeMonth(2025, 3) == 90;
    Day2025(1, 30);
    Day2025(2, 1);
    Day2025(3, 0);
    Day2025(1, 1);
    Day2025(2, 0);
  }

  /** `new Date(2025, m0, d)` for a month of 2025 and a date up to 31. */
  lemma Day2025(m0: int, d: int)
    requires 0 <= m0 < 12 && 0 <= d <= 31
    ensures NewDate(2025, m0, d) == Some(20089 + DaysBeforeMonth(2025, m0) + d - 1)
  {
    assert FullYear(2025) == 2025;
    assert DayFromYear(2025) == 20089 by {
      assert 56 / 4 == 14 && 124 / 100 == 1 && 424 / 400 == 1;
    }
    MakeDayInYear(2025, m0, d);
  }

  /** A month number past 12 rolls over too: `2025-13` passes the format test and asks for January 2026. */
  lemma MonthThirteen()
    ensures MonthWindow(2025, 13) == MonthWindow(2026, 1)
  {
    assert FullYear(2025) == 2025 && FullYear(2026) == 2026;
    MakeDayCarry(2025, 12, 1);
    MakeDayCarry(2025, 13, 0);
    SameDaySameDate(2025, 12, 1, 2026, 0, 1);
    SameDaySameDate(2025, 13, 0, 2026, 1, 0);
  }
}
