/**
 * The monthly attendance report behind the dashboard's download button
 * (`ReportDownloadHover`). Meetings are read back from the meetings table;
 * those with the chosen name whose date falls in the chosen `YYYY-MM` month
 * contribute their attendees to a roster and to the present list of the day
 * they were held. The report grid then marks every roster name on every day
 * of the month: blank for a day still to come, blank and orange for a past
 * day without a meeting, `P` (green) or `A` on a meeting day, and it ends
 * each row with `present/held (pct%)`.
 */
module Report {
  import opened Common
  import opened Text
  import opened Seqs
  import opened Calendar
  import opened DateKeys
  import opened OrderedMaps
  import opened Meetings
  import SA = SimpleAttendance

  // ---------------------------------------------------------------------
  // Dates of meetings

  /** What `new Date(dstr)` reads back through `getFullYear()`, `getMonth() + 1` and `getDate()`. */
  datatype LocalDate = LocalDate(year: int, month: nat, day: nat)

  /**
   * `toISODate(dstr)`: falsy text has no date; otherwise the first three runs
   * of digits when they are plausible, else the date `new Date(dstr)` parses
   * (`fallback`, `None` for an Invalid Date), printed as `YYYY-MM-DD`.
   */
  function ToIsoDate(dstr: Option<string>, fallback: Option<LocalDate>): (r: Option<string>)
    ensures !Truthy(dstr) ==> r.None?
    ensures Truthy(dstr) && ParseYmd(dstr.value).Some? ==> r == NormalizeDateKey(dstr.value)
    ensures Truthy(dstr) && ParseYmd(dstr.value).None? ==> (r.Some? <==> fallback.Some?)
  {
    if !Truthy(dstr) then None
    else match ParseYmd(dstr.value)
      case Some(ymd) => Some(ToKey(ymd.y, ymd.m, ymd.d))
      case None =>
        match fallback
        case Some(dt) => Some(ToKey(dt.year, dt.month, dt.day))
        case None => None
  }

  /**
   * On the numeric path the date is the zero-padded key of the three numbers,
   * and converting that key again gives the same key, whatever `new Date`
   * would make of it.
   */
  lemma IsoDateNumeric(dstr: string, fallback: Option<LocalDate>, other: Option<LocalDate>)
    requires dstr != "" && ParseYmd(dstr).Some?
    ensures var ymd := ParseYmd(dstr).value;
      ToIsoDate(Some(dstr), fallback) == Some(ToKey(ymd.y, ymd.m, ymd.d)) &&
      ParseYmd(ToKey(ymd.y, ymd.m, ymd.d)) == Some(ymd) &&
      ToIsoDate(ToIsoDate(Some(dstr), fallback), other) == ToIsoDate(Some(dstr), fallback)
  {
    var ymd := ParseYmd(dstr).value;
    ParseOfKey(ymd.y, ymd.m, ymd.d);
  }

  /** For a year of four digits, `monthOf` of a numeric-path date is its `YYYY-MM`. */
  lemma IsoDateMonth(dstr: string, fallback: Option<LocalDate>)
    requires dstr != "" && ParseYmd(dstr).Some? && ParseYmd(dstr).value.y <= 9999
    ensures var ymd := ParseYmd(dstr).value;
      MonthOf(ToIsoDate(Some(dstr), fallback).value) == MonthKey(ymd.y, ymd.m)
  {
    var ymd := ParseYmd(dstr).value;
    MonthOfKey(ymd.y, ymd.m, ymd.d);
  }

  // ---------------------------------------------------------------------
  // The meetings read back and the attendance they give

  /**
   * One element of the `/api/meetings` answer: both spellings of the name and
   * date fields, the fallback parse of the date text, and the attendees.
   */
  datatype MeetingItem = MeetingItem(
    meetingName: Option<string>, meeting_name: Option<string>,
    dateOfMeeting: Option<string>, date_of_meeting: Option<string>,
    fallback: Option<LocalDate>, attendees: AttendeesInput)

  /** `m.meetingName || m.meeting_name || ''`. */
  function NameOf(m: MeetingItem): string {
    if Truthy(m.meetingName) then m.meetingName.value
    else if Truthy(m.meeting_name) then m.meeting_name.value
    else ""
  }

  /** `toISODate(m.dateOfMeeting || m.date_of_meeting)`. */
  function IsoOf(m: MeetingItem): Option<string> {
    ToIsoDate(if Truthy(m.dateOfMeeting) then m.dateOfMeeting else m.date_of_meeting, m.fallback)
  }

  /** The filter: exactly the chosen name, and a date whose `monthOf` is the chosen month. */
  predicate Selected(m: MeetingItem, meeting: string, month: string) {
    NameOf(m) == meeting && IsoOf(m).Some? && MonthOf(IsoOf(m).value) == month
  }

  function SelectedOf(rows: seq<MeetingItem>, meeting: string, month: string): (r: seq<MeetingItem>)
    ensures forall m :: m in r <==> m in rows && Selected(m, meeting, month)
  {
    Filter(rows, m => Selected(m, meeting, month))
  }

  /** The attendee pieces: an array as it is, a text split at commas, `''` for none. */
  function RawPieces(a: AttendeesInput): seq<string> {
    match a
    case Names(ns) => ns
    case Text(t) => Split(t, ',')
    case Absent => Split("", ',')
  }

  /** `attRaw.map(norm).filter(Boolean)`. */
  function Cleaned(a: AttendeesInput): seq<string> {
    NonEmpty(TrimAll(RawPieces(a)))
  }

  /** A cleaned attendee is a trimmed piece that is not empty. */
  lemma CleanedPieces(a: AttendeesInput, x: string)
    ensures x in Cleaned(a) <==> x != "" && exists i :: 0 <= i < |RawPieces(a)| && x == Trim(RawPieces(a)[i])
  {
    TrimmedNonEmpty(RawPieces(a), x);
  }

  /** A row's date and cleaned attendees, the two things the attendance takes from it. */
  function EntryOf(m: MeetingItem): (Option<string>, seq<string>) {
    (IsoOf(m), Cleaned(m.attendees))
  }

  function Entries(rows: seq<MeetingItem>): (es: seq<(Option<string>, seq<string>)>)
    ensures |es| == |rows|
    ensures forall i :: 0 <= i < |rows| ==> es[i] == EntryOf(rows[i])
  {
    seq(|rows|, i requires 0 <= i < |rows| => EntryOf(rows[i]))
  }

  /** The lists appended under their dates, in order; entries without a date are skipped. */
  function Buckets(es: seq<(Option<string>, seq<string>)>): (r: SA.DateLists)
    ensures UniqueKeys(r)
  {
    if es == [] then []
    else
      var before := Buckets(es[..|es| - 1]);
      var e := es[|es| - 1];
      match e.0
      case None => before
      case Some(iso) => SA.Push(before, iso, e.1)
  }

  /** The lists of the entries that have a date, in order. */
  function Dated(es: seq<(Option<string>, seq<string>)>): seq<string> {
    if es == [] then []
    else
      var e := es[|es| - 1];
      Dated(es[..|es| - 1]) + if e.0.Some? then e.1 else []
  }

  /** Every cleaned attendee of the rows that have a date, in row order. */
  function AllCleaned(rows: seq<MeetingItem>): seq<string> {
    Dated(Entries(rows))
  }

  /** The attendees of the rows, each row's list appended under its date. */
  function DayLists(rows: seq<MeetingItem>): (r: SA.DateLists)
    ensures UniqueKeys(r)
  {
    Buckets(Entries(rows))
  }

  /** What the component keeps as `attendanceData`. */
  datatype AttendanceData = AttendanceData(attendees: seq<string>, dates: SA.DateLists)

  /** The `dates` object: the day keys in code-unit order, each with its distinct names sorted by `le`. */
  function DatesOut(days: SA.DateLists, le: (string, string) -> bool): (r: SA.DateLists)
    ensures |r| == |days|
  {
    var ks := SortBy(Keys(days), StrLe);
    seq(|ks|, i requires 0 <= i < |ks| => (ks[i], SortBy(Distinct(SA.Listed(days, ks[i])), le)))
  }

  /** The attendance of the selected meetings, as the effect stores it. */
  function AttendanceOf(rows: seq<MeetingItem>, meeting: string, month: string, le: (string, string) -> bool): AttendanceData {
    var sel := SelectedOf(rows, meeting, month);
    AttendanceData(SortBy(Distinct(AllCleaned(sel)), le), DatesOut(DayLists(sel), le))
  }

  // ---------------------------------------------------------------------
  // What the attendance means

  lemma {:induction false} DatedMembers(es: seq<(Option<string>, seq<string>)>, x: string)
    ensures x in Dated(es) <==> exists i :: 0 <= i < |es| && es[i].0.Some? && x in es[i].1
  {
    if es != [] {
      var init := es[..|es| - 1];
      DatedMembers(init, x);
      if x in Dated(init) {
        var i :| 0 <= i < |init| && init[i].0.Some? && x in init[i].1;
        assert es[i] == init[i];
      }
      if i :| 0 <= i < |es| && es[i].0.Some? && x in es[i].1 {
        if i < |init| { assert es[i] == init[i]; }
      }
    }
  }

  /** A name is in the roster exactly when some dated row has it among its cleaned attendees. */
  lemma AllCleanedMembers(rows: seq<MeetingItem>, x: string)
    ensures x in AllCleaned(rows) <==> exists m :: m in rows && IsoOf(m).Some? && x in Cleaned(m.attendees)
  {
    var es := Entries(rows);
    DatedMembers(es, x);
    if m :| m in rows && IsoOf(m).Some? && x in Cleaned(m.attendees) {
      var i :| 0 <= i < |rows| && rows[i] == m;
      assert es[i].0.Some? && x in es[i].1;
    }
  }

  lemma {:induction false} BucketsHas(es: seq<(Option<string>, seq<string>)>, k: string)
    ensures Has(Buckets(es), k) <==> exists i :: 0 <= i < |es| && es[i].0 == Some(k)
  {
    if es != [] {
      var init := es[..|es| - 1];
      BucketsHas(init, k);
      if Has(Buckets(es), k) && Has(Buckets(init), k) {
        var i :| 0 <= i < |init| && init[i].0 == Some(k);
        assert es[i] == init[i];
      }
      if i :| 0 <= i < |es| && es[i].0 == Some(k) {
        if i < |init| { assert es[i] == init[i]; }
      }
    }
  }

  /** The last entry adds its list under its own date and nowhere else. */
  lemma ListedSnoc(es: seq<(Option<string>, seq<string>)>, k: string)
    requires es != []
    ensures var e := es[|es| - 1];
      SA.Listed(Buckets(es), k) == SA.Listed(Buckets(es[..|es| - 1]), k) + if e.0 == Some(k) then e.1 else []
  {
    var e := es[|es| - 1];
    var before := Buckets(es[..|es| - 1]);
    if e.0.None? {
      assert Buckets(es) == before;
      assert SA.Listed(before, k) + [] == SA.Listed(before, k);
    } else {
      assert Buckets(es) == SA.Push(before, e.0.value, e.1);
    }
  }

  lemma {:induction false} BucketsListed(es: seq<(Option<string>, seq<string>)>, k: string, x: string)
    ensures x in SA.Listed(Buckets(es), k) <==> exists i :: 0 <= i < |es| && es[i].0 == Some(k) && x in es[i].1
  {
    if es != [] {
      var init := es[..|es| - 1];
      var e := es[|es| - 1];
      var l0 := SA.Listed(Buckets(init), k);
      BucketsListed(init, k, x);
      assert x in SA.Listed(Buckets(es), k) <==> x in l0 || (e.0 == Some(k) && x in e.1) by {
        ListedSnoc(es, k);
      }
      if x in l0 {
        var i :| 0 <= i < |init| && init[i].0 == Some(k) && x in init[i].1;
        assert es[i] == init[i];
      }
      if i :| 0 <= i < |es| && es[i].0 == Some(k) && x in es[i].1 {
        if i < |init| {
          assert es[i] == init[i];
        }
      }
    }
  }

  /** A date is a key of the day lists exactly when some row has it. */
  lemma DayListsHas(rows: seq<MeetingItem>, k: string)
    ensures Has(DayLists(rows), k) <==> exists m :: m in rows && IsoOf(m) == Some(k)
  {
    var es := Entries(rows);
    BucketsHas(es, k);
    if m :| m in rows && IsoOf(m) == Some(k) {
      var i :| 0 <= i < |rows| && rows[i] == m;
      assert es[i].0 == Some(k);
    }
  }

  /** A name is listed under a date exactly when some row of that date has it among its cleaned attendees. */
  lemma DayListsListed(rows: seq<MeetingItem>, k: string, x: string)
    ensures x in SA.Listed(DayLists(rows), k) <==> exists m :: m in rows && IsoOf(m) == Some(k) && x in Cleaned(m.attendees)
  {
    var es := Entries(rows);
    BucketsListed(es, k, x);
    if m :| m in rows && IsoOf(m) == Some(k) && x in Cleaned(m.attendees) {
      var i :| 0 <= i < |rows| && rows[i] == m;
      assert es[i].0 == Some(k) && x in es[i].1;
    }
  }

  /**
   * The stored attendance: the roster is every trimmed non-empty attendee of
   * the selected meetings once, sorted by `le`; the date keys are the dates of
   * the selected meetings, each in the chosen month, in increasing order; and
   * each date lists, once and sorted, the attendees of that day's meetings.
   */
  lemma AttendanceProperties(rows: seq<MeetingItem>, meeting: string, month: string, le: (string, string) -> bool)
    requires TotalPreorder(le)
    ensures var a := AttendanceOf(rows, meeting, month, le);
      var sel := SelectedOf(rows, meeting, month);
      NoDuplicates(a.attendees) && Sorted(a.attendees, le) &&
      (forall x :: x in a.attendees <==> exists m :: m in sel && x in Cleaned(m.attendees)) &&
      Sorted(Keys(a.dates), StrLe) && NoDuplicates(Keys(a.dates)) &&
      (forall k :: k in Keys(a.dates) <==> exists m :: m in sel && IsoOf(m) == Some(k)) &&
      (forall k :: k in Keys(a.dates) ==> MonthOf(k) == month) &&
      (forall i :: 0 <= i < |a.dates| ==>
        NoDuplicates(a.dates[i].1) && Sorted(a.dates[i].1, le) &&
        forall x :: x in a.dates[i].1 <==> exists m :: m in sel && IsoOf(m) == Some(a.dates[i].0) && x in Cleaned(m.attendees))
  {
    var a := AttendanceOf(rows, meeting, month, le);
    var sel := SelectedOf(rows, meeting, month);
    RosterFacts(sel, le);
    DateKeyFacts(sel, le);
    forall i | 0 <= i < |a.dates|
      ensures NoDuplicates(a.dates[i].1) && Sorted(a.dates[i].1, le)
      ensures forall x :: x in a.dates[i].1 <==> exists m :: m in sel && IsoOf(m) == Some(a.dates[i].0) && x in Cleaned(m.attendees)
    {
      DateListFacts(sel, le, i);
    }
    forall k | k in Keys(a.dates) ensures MonthOf(k) == month {
      var m :| m in sel && IsoOf(m) == Some(k);
    }
  }

  lemma RosterFacts(sel: seq<MeetingItem>, le: (string, string) -> bool)
    requires TotalPreorder(le)
    requires forall m :: m in sel ==> IsoOf(m).Some?
    ensures var r := SortBy(Distinct(AllCleaned(sel)), le);
      NoDuplicates(r) && Sorted(r, le) &&
      forall x :: x in r <==> exists m :: m in sel && x in Cleaned(m.attendees)
  {
    var d := Distinct(AllCleaned(sel));
    var r := SortBy(d, le);
    SortBySorted(d, le);
    NoDuplicatesPermutation(d, r);
    forall x ensures x in r <==> exists m :: m in sel && x in Cleaned(m.attendees) {
      assert x in r <==> x in multiset(d);
      AllCleanedMembers(sel, x);
      if m :| m in sel && x in Cleaned(m.attendees) {
        assert IsoOf(m).Some?;
      }
    }
  }

  lemma DateKeyFacts(sel: seq<MeetingItem>, le: (string, string) -> bool)
    ensures var out := DatesOut(DayLists(sel), le);
      Sorted(Keys(out), StrLe) && NoDuplicates(Keys(out)) &&
      forall k :: k in Keys(out) <==> exists m :: m in sel && IsoOf(m) == Some(k)
  {
    var days := DayLists(sel);
    var out := DatesOut(days, le);
    var ks := SortBy(Keys(days), StrLe);
    StrLeTotalPreorder();
    SortBySorted(Keys(days), StrLe);
    KeysDistinct(days);
    NoDuplicatesPermutation(Keys(days), ks);
    assert Keys(out) == ks;
    forall k ensures k in ks <==> exists m :: m in sel && IsoOf(m) == Some(k) {
      assert k in ks <==> k in multiset(Keys(days));
      HasIndex(days, k);
      DayListsHas(sel, k);
    }
  }

  lemma DateListFacts(sel: seq<MeetingItem>, le: (string, string) -> bool, i: int)
    requires TotalPreorder(le)
    requires 0 <= i < |DatesOut(DayLists(sel), le)|
    ensures var e := DatesOut(DayLists(sel), le)[i];
      NoDuplicates(e.1) && Sorted(e.1, le) &&
      forall x :: x in e.1 <==> exists m :: m in sel && IsoOf(m) == Some(e.0) && x in Cleaned(m.attendees)
  {
    var days := DayLists(sel);
    var e := DatesOut(days, le)[i];
    var d := Distinct(SA.Listed(days, e.0));
    assert e.1 == SortBy(d, le);
    SortBySorted(d, le);
    NoDuplicatesPermutation(d, e.1);
    forall x ensures x in e.1 <==> exists m :: m in sel && IsoOf(m) == Some(e.0) && x in Cleaned(m.attendees) {
      assert x in e.1 <==> x in multiset(d);
      DayListsListed(sel, e.0, x);
    }
  }

  // ---------------------------------------------------------------------
  // The effect that loads the attendance

  lemma BucketsSnoc(es: seq<(Option<string>, seq<string>)>, e: (Option<string>, seq<string>))
    ensures Dated(es + [e]) == Dated(es) + if e.0.Some? then e.1 else []
    ensures Buckets(es + [e]) == if e.0.Some? then SA.Push(Buckets(es), e.0.value, e.1) else Buckets(es)
  {
    assert (es + [e])[..|es|] == es;
  }

  /** One dated meeting: its names go into the roster set and into its day's bucket. */
  method AddEntry(roster: seq<string>, buckets: SA.DateLists, ghost es: seq<(Option<string>, seq<string>)>, e: (Option<string>, seq<string>))
    returns (roster': seq<string>, buckets': SA.DateLists)
    requires UniqueKeys(buckets) && roster == Distinct(Dated(es))
    requires Keys(buckets) == Keys(Buckets(es))
    requires forall k :: SA.Listed(buckets, k) == Distinct(SA.Listed(Buckets(es), k))
    ensures UniqueKeys(buckets') && roster' == Distinct(Dated(es + [e]))
    ensures Keys(buckets') == Keys(Buckets(es + [e]))
    ensures forall k :: SA.Listed(buckets', k) == Distinct(SA.Listed(Buckets(es + [e]), k))
  {
    BucketsSnoc(es, e);
    if e.0.None? {
      assert Dated(es) + [] == Dated(es);
      return roster, buckets;
    }
    var iso := e.0.value;
    ghost var before := Buckets(es);
    ghost var after := SA.Push(before, iso, e.1);
    roster' := SA.AddAll(roster, Dated(es), e.1);
    var bucket := SA.Listed(buckets, iso);
    bucket := SA.AddAll(bucket, SA.Listed(before, iso), e.1);
    buckets' := Put(buckets, iso, bucket);
    assert Keys(after) == Keys(Put(before, iso, SA.Listed(before, iso) + e.1));
    assert Has(before, iso) <==> Has(buckets, iso) by {
      HasIndex(before, iso);
      HasIndex(buckets, iso);
    }
    forall k ensures SA.Listed(buckets', k) == Distinct(SA.Listed(after, k)) {
      if k != iso {
        assert SA.Listed(buckets', k) == SA.Listed(buckets, k);
      }
    }
  }

  /** The loop of the effect over the selected meetings, filling the roster set and the day buckets. */
  method Collect(sel: seq<MeetingItem>) returns (roster: seq<string>, buckets: SA.DateLists)
    ensures roster == Distinct(AllCleaned(sel))
    ensures UniqueKeys(buckets) && Keys(buckets) == Keys(DayLists(sel))
    ensures forall k :: SA.Listed(buckets, k) == Distinct(SA.Listed(DayLists(sel), k))
  {
    ghost var es := Entries(sel);
    roster, buckets := [], [];
    var i := 0;
    while i < |sel|
      invariant 0 <= i <= |sel|
      invariant UniqueKeys(buckets) && roster == Distinct(Dated(es[..i]))
      invariant Keys(buckets) == Keys(Buckets(es[..i]))
      invariant forall k :: SA.Listed(buckets, k) == Distinct(SA.Listed(Buckets(es[..i]), k))
    {
      var e := EntryOf(sel[i]);
      assert es[i] == e;
      PrefixSnoc(es, i);
      roster, buckets := AddEntry(roster, buckets, es[..i], e);
      i := i + 1;
    }
    assert es[..i] == es;
  }

  /** The `dates` object filled in key order: each key with its bucket sorted by `le`. */
  method SortedDates(buckets: SA.DateLists, ks: seq<string>, le: (string, string) -> bool) returns (dates: SA.DateLists)
    ensures |dates| == |ks|
    ensures forall t :: 0 <= t < |ks| ==> dates[t] == (ks[t], SortBy(SA.Listed(buckets, ks[t]), le))
  {
    dates := [];
    var j := 0;
    while j < |ks|
      invariant 0 <= j <= |ks| && |dates| == j
      invariant forall t :: 0 <= t < j ==> dates[t] == (ks[t], SortBy(SA.Listed(buckets, ks[t]), le))
    {
      dates := dates + [(ks[j], SortBy(SA.Listed(buckets, ks[j]), le))];
      j := j + 1;
    }
  }

  /**
   * The shape handed to the report: the roster sorted by `le`, and one
   * property per day key in code-unit order holding its bucket sorted by
   * `le`. The keys are distinct, so each assignment adds a property at the end.
   */
  method Shape(roster: seq<string>, buckets: SA.DateLists, ghost days: SA.DateLists, le: (string, string) -> bool)
    returns (data: AttendanceData)
    requires Keys(buckets) == Keys(days)
    requires forall k :: SA.Listed(buckets, k) == Distinct(SA.Listed(days, k))
    ensures data == AttendanceData(SortBy(roster, le), DatesOut(days, le))
  {
    var ks := SortBy(Keys(buckets), StrLe);
    var dates := SortedDates(buckets, ks, le);
    ghost var out := DatesOut(days, le);
    assert |out| == |ks|;
    forall t | 0 <= t < |ks| ensures dates[t] == out[t] {
      assert SA.Listed(buckets, ks[t]) == Distinct(SA.Listed(days, ks[t]));
    }
    assert dates == out;
    data := AttendanceData(SortBy(roster, le), dates);
  }

  /** `fetch('/api/meetings').then(r => r.json())`: a failure, or the parsed answer (`None` when it is not an array). */
  datatype Fetched = FetchFailed | Answer(rows: Option<seq<MeetingItem>>)

  /**
   * The effect run when the meeting or the month changes: nothing happens
   * until both are chosen; a failed fetch clears the data; otherwise the data
   * becomes the attendance of the selected meetings of the answer.
   */
  method Refresh(current: Option<AttendanceData>, meeting: string, month: string, fetched: Fetched, le: (string, string) -> bool)
    returns (next: Option<AttendanceData>)
    ensures meeting == "" || month == "" ==> next == current
    ensures meeting != "" && month != "" && fetched.FetchFailed? ==> next.None?
    ensures meeting != "" && month != "" && fetched.Answer? ==>
      next == Some(AttendanceOf(fetched.rows.GetOr([]), meeting, month, le))
  {
    if meeting == "" || month == "" {
      return current;
    }
    match fetched {
      case FetchFailed =>
        next := None;
      case Answer(answer) =>
        var rows := if answer.Some? then answer.value else [];
        var sel := SelectedOf(rows, meeting, month);
        var roster, buckets := Collect(sel);
        var data := Shape(roster, buckets, DayLists(sel), le);
        next := Some(data);
    }
  }

  // ---------------------------------------------------------------------
  // The report grid

  /** `new Date(Y, M, 0).getDate()`: the length of month `month` (1..12). */
  function DaysIn(year: int, month: int): (n: nat)
    requires 1 <= month <= 12
    ensures 28 <= n <= 31
  {
    DaysInMonth(FullYear(year), month - 1)
  }

  /** `new Date(Y, M - 1, d)` as a day number. */
  function CellDay(year: int, month: int, d: int): int {
    MakeDay(FullYear(year), month - 1, d)
  }

  /** A meeting was held on day `d`: the data has its key and the day is not after today. */
  predicate Held(dates: SA.DateLists, year: int, month: nat, d: nat, today: int) {
    Has(dates, ToKey(year, month, d)) && CellDay(year, month, d) <= today
  }

  /** `meetingDays` after the first `n` days: the held days among them, in order. */
  function HeldDays(dates: SA.DateLists, year: int, month: nat, today: int, n: nat): (r: seq<nat>)
    ensures |r| <= n
    ensures forall d :: d in r <==> 1 <= d <= n && Held(dates, year, month, d, today)
  {
    if n == 0 then []
    else HeldDays(dates, year, month, today, n - 1) + if Held(dates, year, month, n, today) then [n] else []
  }

  /** One more day of the month: it joins the held days when a meeting was held on it. */
  lemma HeldDaysSnoc(dates: SA.DateLists, year: int, month: nat, today: int, d: nat, held: seq<nat>, isHeld: bool)
    requires d >= 1 && held == HeldDays(dates, year, month, today, d - 1)
    requires isHeld == (Has(dates, ToKey(year, month, d)) && CellDay(year, month, d) <= today)
    ensures HeldDays(dates, year, month, today, d) == if isHeld then held + [d] else held
  {
  }

  /** The loop collecting the days of the month on which a meeting was held. */
  method MeetingDays(dates: SA.DateLists, year: int, month: nat, today: int, days: nat) returns (held: seq<nat>)
    ensures held == HeldDays(dates, year, month, today, days)
  {
    held := [];
    var d: nat := 1;
    while d <= days
      invariant 1 <= d <= days + 1
      invariant held == HeldDays(dates, year, month, today, d - 1)
      decreases days + 1 - d
    {
      held := VisitDay(dates, year, month, today, d, held);
      d := d + 1;
    }
  }

  /** The loop body for day `d`: the day is pushed when its key is in the data and its date is not after today. */
  method VisitDay(dates: SA.DateLists, year: int, month: nat, today: int, d: nat, held: seq<nat>) returns (held': seq<nat>)
    requires d >= 1 && held == HeldDays(dates, year, month, today, d - 1)
    ensures held' == HeldDays(dates, year, month, today, d)
  {
    var iso := ToKey(year, month, d);
    var cellDate := CellDay(year, month, d);
    HeldDaysSnoc(dates, year, month, today, d, held, Has(dates, iso) && cellDate <= today);
    held' := held;
    if Has(dates, iso) && cellDate <= today {
      held' := held + [d];
    }
  }

  /** A grid cell: a day still to come, a past day without a meeting, or a meeting day with the name present or absent. */
  datatype Cell = Upcoming | NoMeeting | Attended | Missed

  /** The text of a cell. */
  function CellText(c: Cell): string {
    match c
    case Upcoming => ""
    case NoMeeting => ""
    case Attended => "P"
    case Missed => "A"
  }

  /** The fill of a cell: orange for a past day without a meeting, green for present. */
  function CellColor(c: Cell): Option<(nat, nat, nat)> {
    match c
    case NoMeeting => Some((255, 229, 204))
    case Attended => Some((198, 239, 206))
    case _ => None
  }

  /** `list.map(s => s.toLowerCase())`. */
  function LowerAll(list: seq<string>): (r: seq<string>)
    ensures |r| == |list| && forall i :: 0 <= i < |list| ==> r[i] == Lower(list[i])
  {
    seq(|list|, i requires 0 <= i < |list| => Lower(list[i]))
  }

  /** The cell of `name` on day `d`. */
  function CellOf(name: string, dates: SA.DateLists, year: int, month: nat, today: int, d: nat): (c: Cell)
    ensures c.Upcoming? <==> CellDay(year, month, d) > today
    ensures c.NoMeeting? ==> !Has(dates, ToKey(year, month, d))
    ensures c.Attended? || c.Missed? ==> Has(dates, ToKey(year, month, d))
  {
    if CellDay(year, month, d) > today then Upcoming
    else match Get(dates, ToKey(year, month, d))
      case None => NoMeeting
      case Some(list) => if Lower(name) in LowerAll(list) then Attended else Missed
  }

  /** The cells of the first `n` days. */
  function Cells(name: string, dates: SA.DateLists, year: int, month: nat, today: int, n: nat): (r: seq<Cell>)
    ensures |r| == n
  {
    seq(n, i requires 0 <= i < n => CellOf(name, dates, year, month, today, i + 1))
  }

  /** How many cells read `P`. */
  function CountAttended(cells: seq<Cell>): nat {
    if cells == [] then 0
    else CountAttended(cells[..|cells| - 1]) + if cells[|cells| - 1].Attended? then 1 else 0
  }

  /** `Math.round((present / held) * 100)`, or 0 when no meeting was held. */
  function Pct(present: nat, held: nat): nat {
    if held > 0 then (200 * present + held) / (2 * held) else 0
  }

  /** `${presentCount}/${totalMeetingsHeld} (${availabilityPct}%)`. */
  function TotalLabel(present: nat, held: nat, pct: nat): string {
    NatToString(present) + ("/" + (NatToString(held) + (" (" + (NatToString(pct) + "%)"))))
  }

  /** One body row of the report: the name, one cell per day, and the total. */
  datatype ReportRow = ReportRow(name: string, cells: seq<Cell>, total: string)

  /** The row of `name` over the first `n` days. */
  function RowOfDays(name: string, dates: SA.DateLists, year: int, month: nat, today: int, n: nat): (r: ReportRow)
    ensures r.name == name && |r.cells| == n
  {
    var cells := Cells(name, dates, year, month, today, n);
    var present := CountAttended(cells);
    var held := |HeldDays(dates, year, month, today, n)|;
    ReportRow(name, cells, TotalLabel(present, held, Pct(present, held)))
  }

  /** The row of `name` over the whole month. */
  function RowOf(name: string, dates: SA.DateLists, year: int, month: nat, today: int): (r: ReportRow)
    requires 1 <= month <= 12
    ensures r.name == name && 28 <= |r.cells| <= 31
  {
    RowOfDays(name, dates, year, month, today, DaysIn(year, month))
  }

  /**
   * With no days to walk, a row has no cells and reads `0/0 (0%)`: no day
   * was attended, none was held, and the percentage of none held is 0.
   */
  lemma NoDaysRow(name: string, dates: SA.DateLists, year: int, month: nat, today: int)
    ensures RowOfDays(name, dates, year, month, today, 0) == ReportRow(name, [], "0/0 (0%)")
  {
    assert NatToString(0) == "0";
    assert TotalLabel(0, 0, 0) == "0" + ("/" + ("0" + (" (" + ("0" + "%)"))));
  }

  lemma CellsSnoc(name: string, dates: SA.DateLists, year: int, month: nat, today: int, n: nat)
    ensures Cells(name, dates, year, month, today, n + 1) ==
      Cells(name, dates, year, month, today, n) + [CellOf(name, dates, year, month, today, n + 1)]
  {
  }

  lemma CountSnoc(cells: seq<Cell>, c: Cell)
    ensures CountAttended(cells + [c]) == CountAttended(cells) + if c.Attended? then 1 else 0
  {
    assert (cells + [c])[..|cells|] == cells;
  }

  /** The inner loop of `generatePDF` for one attendee, over `days` days. */
  method BuildRow(name: string, dates: SA.DateLists, year: int, month: nat, today: int, days: nat, held: nat)
    returns (row: ReportRow)
    requires held == |HeldDays(dates, year, month, today, days)|
    ensures row == RowOfDays(name, dates, year, month, today, days)
  {
    var nameKey := Lower(name);
    var cells: seq<Cell> := [];
    var presentCount := 0;
    var d := 1;
    while d <= days
      invariant 1 <= d <= days + 1
      invariant cells == Cells(name, dates, year, month, today, d - 1)
      invariant presentCount == CountAttended(cells)
    {
      var pset := Get(dates, ToKey(year, month, d));
      var c: Cell;
      if CellDay(year, month, d) > today {
        c := Upcoming;
      } else if pset.None? {
        c := NoMeeting;
      } else if nameKey in LowerAll(pset.value) {
        c := Attended;
        presentCount := presentCount + 1;
      } else {
        c := Missed;
      }
      CountSnoc(cells, c);
      CellsSnoc(name, dates, year, month, today, d - 1);
      cells := cells + [c];
      d := d + 1;
    }
    row := ReportRow(name, cells, TotalLabel(presentCount, held, Pct(presentCount, held)));
  }

  /** The outer loop of `generatePDF`: one row per roster name. */
  method BuildRows(attendees: seq<string>, dates: SA.DateLists, year: int, month: nat, today: int, days: nat, held: nat)
    returns (body: seq<ReportRow>)
    requires held == |HeldDays(dates, year, month, today, days)|
    ensures |body| == |attendees|
    ensures forall i :: 0 <= i < |attendees| ==> body[i] == RowOfDays(attendees[i], dates, year, month, today, days)
  {
    ghost var want := seq(|attendees|, i requires 0 <= i < |attendees| => RowOfDays(attendees[i], dates, year, month, today, days));
    body := [];
    var r := 0;
    while r < |attendees|
      invariant 0 <= r <= |attendees| && body == want[..r]
    {
      var row := BuildRow(attendees[r], dates, year, month, today, days, held);
      assert row == want[r];
      PrefixSnoc(want, r);
      body := body + [row];
      r := r + 1;
    }
    assert body == want;
  }

  /**
   * `generatePDF`: no report without data or with an empty roster; otherwise
   * one row per roster name, in roster order, for the month `year`-`month`
   * as seen on day `today`. The month input can be cleared while the data
   * of the last month stays; `month` is then `None`: `M` is `NaN`, so is
   * `daysInMonth`, both loops run no times, and every row has no cells and
   * reads `0/0 (0%)`.
   */
  method GenerateReport(data: Option<AttendanceData>, year: int, month: Option<nat>, today: int)
    returns (grid: Option<seq<ReportRow>>)
    requires month.Some? ==> 1 <= month.value <= 12
    ensures grid.None? <==> data.None? || data.value.attendees == []
    ensures grid.Some? ==> |grid.value| == |data.value.attendees|
    ensures grid.Some? && month.Some? ==>
      forall i :: 0 <= i < |grid.value| ==> grid.value[i] == RowOf(data.value.attendees[i], data.value.dates, year, month.value, today)
    ensures grid.Some? && month.None? ==>
      forall i :: 0 <= i < |grid.value| ==> grid.value[i] == ReportRow(data.value.attendees[i], [], "0/0 (0%)")
  {
    if data.None? || data.value.attendees == [] {
      return None;
    }
    var attendees, dates := data.value.attendees, data.value.dates;
    var m := month.GetOr(0);
    var days := if month.Some? then DaysIn(year, m) else 0;
    var meetingDays := MeetingDays(dates, year, m, today, days);
    var body := BuildRows(attendees, dates, year, m, today, days, |meetingDays|);
    grid := Some(body);
    if month.None? {
      forall i | 0 <= i < |body| ensures body[i] == ReportRow(attendees[i], [], "0/0 (0%)") {
        NoDaysRow(attendees[i], dates, year, m, today);
      }
    }
  }

  // ---------------------------------------------------------------------
  // What the grid means

  /**
   * The cell rules: a day after today is blank and unfilled; a day up to
   * today without a meeting is blank and orange; a meeting day reads `P`
   * (green) exactly when the lower-cased name is among the lower-cased
   * present names, and `A` (unfilled) otherwise.
   */
  lemma CellRules(name: string, dates: SA.DateLists, year: int, month: nat, today: int, d: nat)
    ensures var c := CellOf(name, dates, year, month, today, d);
      var iso := ToKey(year, month, d);
      (CellDay(year, month, d) > today ==> CellText(c) == "" && CellColor(c).None?) &&
      (CellDay(year, month, d) <= today && !Has(dates, iso) ==> CellText(c) == "" && CellColor(c) == Some((255, 229, 204))) &&
      (CellDay(year, month, d) <= today && Has(dates, iso) ==>
        (CellText(c) == "P" <==> exists x :: x in Get(dates, iso).value && Lower(x) == Lower(name)) &&
        (CellText(c) == "A" <==> !exists x :: x in Get(dates, iso).value && Lower(x) == Lower(name)) &&
        CellColor(c) == if CellText(c) == "P" then Some((198, 239, 206)) else None)
  {
    var iso := ToKey(year, month, d);
    if Has(dates, iso) {
      var list := Get(dates, iso).value;
      var low := LowerAll(list);
      if Lower(name) in low {
        var i :| 0 <= i < |low| && low[i] == Lower(name);
        assert list[i] in list;
      }
      if x :| x in list && Lower(x) == Lower(name) {
        var i :| 0 <= i < |list| && list[i] == x;
        assert low[i] == Lower(name);
      }
    }
  }

  /** A cell reads `P` or `A` exactly on a day a meeting was held. */
  lemma MarkedIffHeld(name: string, dates: SA.DateLists, year: int, month: nat, today: int, d: nat)
    ensures var c := CellOf(name, dates, year, month, today, d);
      (c.Attended? || c.Missed?) <==> Held(dates, year, month, d, today)
  {
  }

  lemma CountAttendedCells(name: string, dates: SA.DateLists, year: int, month: nat, today: int, n: nat)
    ensures CountAttended(Cells(name, dates, year, month, today, n + 1)) ==
      CountAttended(Cells(name, dates, year, month, today, n)) +
      if CellOf(name, dates, year, month, today, n + 1).Attended? then 1 else 0
  {
    CellsSnoc(name, dates, year, month, today, n);
    CountSnoc(Cells(name, dates, year, month, today, n), CellOf(name, dates, year, month, today, n + 1));
  }

  /**
   * Over the first `n` days the present count never exceeds the held count,
   * and the two are equal exactly when the name is present on every held day.
   */
  lemma {:induction false} PresentWithinHeld(name: string, dates: SA.DateLists, year: int, month: nat, today: int, n: nat)
    ensures CountAttended(Cells(name, dates, year, month, today, n)) <= |HeldDays(dates, year, month, today, n)|
    ensures CountAttended(Cells(name, dates, year, month, today, n)) == |HeldDays(dates, year, month, today, n)| <==>
      PresentOnHeldDays(name, dates, year, month, today, n)
  {
    PresentCounts(name, dates, year, month, today, n);
  }

  /** The present count against the held count over the first `n` days. */
  predicate PresentFacts(name: string, dates: SA.DateLists, year: int, month: nat, today: int, n: nat) {
    var p := CountAttended(Cells(name, dates, year, month, today, n));
    var h := |HeldDays(dates, year, month, today, n)|;
    p <= h && (p == h <==> PresentOnHeldDays(name, dates, year, month, today, n))
  }

  lemma {:induction false} PresentCounts(name: string, dates: SA.DateLists, year: int, month: nat, today: int, n: nat)
    ensures PresentFacts(name, dates, year, month, today, n)
  {
    if n == 0 {
      PresentNone(name, dates, year, month, today);
    } else {
      PresentCounts(name, dates, year, month, today, n - 1);
      PresentStep(name, dates, year, month, today, n);
    }
  }

  lemma PresentNone(name: string, dates: SA.DateLists, year: int, month: nat, today: int)
    ensures PresentFacts(name, dates, year, month, today, 0)
  {
    assert Cells(name, dates, year, month, today, 0) == [];
  }

  lemma PresentStep(name: string, dates: SA.DateLists, year: int, month: nat, today: int, n: nat)
    requires n > 0
    ensures PresentFacts(name, dates, year, month, today, n - 1) ==> PresentFacts(name, dates, year, month, today, n)
  {
    if !PresentFacts(name, dates, year, month, today, n - 1) {
      return;
    }
    var p0 := CountAttended(Cells(name, dates, year, month, today, n - 1));
    var h0 := |HeldDays(dates, year, month, today, n - 1)|;
    var attended := CellOf(name, dates, year, month, today, n).Attended?;
    var held := Held(dates, year, month, n, today);
    assert CountAttended(Cells(name, dates, year, month, today, n)) == p0 + (if attended then 1 else 0) by {
      CountAttendedCells(name, dates, year, month, today, n - 1);
    }
    assert |HeldDays(dates, year, month, today, n)| == h0 + (if held then 1 else 0) by {
      HeldDaysSnoc(dates, year, month, today, n, HeldDays(dates, year, month, today, n - 1), held);
    }
    assert attended ==> held by {
      MarkedIffHeld(name, dates, year, month, today, n);
    }
    PresentOnHeldDaysSnoc(name, dates, year, month, today, n);
    CountStep(p0, h0, attended, held, PresentOnHeldDays(name, dates, year, month, today, n - 1));
  }

  /** The name is present on every held day among the first `n`. */
  predicate PresentOnHeldDays(name: string, dates: SA.DateLists, year: int, month: nat, today: int, n: nat) {
    forall d :: 1 <= d <= n && Held(dates, year, month, d, today) ==> CellOf(name, dates, year, month, today, d).Attended?
  }

  lemma PresentOnHeldDaysSnoc(name: string, dates: SA.DateLists, year: int, month: nat, today: int, n: nat)
    requires n > 0
    ensures PresentOnHeldDays(name, dates, year, month, today, n) <==>
      PresentOnHeldDays(name, dates, year, month, today, n - 1) &&
      (Held(dates, year, month, n, today) ==> CellOf(name, dates, year, month, today, n).Attended?)
  {
  }

  /** One more day keeps the present count within the held count, equal exactly while every held day is attended. */
  lemma CountStep(p: nat, h: nat, attended: bool, held: bool, all: bool)
    requires p <= h && (p == h <==> all)
    requires attended ==> held
    ensures p + (if attended then 1 else 0) <= h + (if held then 1 else 0)
    ensures p + (if attended then 1 else 0) == h + (if held then 1 else 0) <==> all && (held ==> attended)
  {
  }

  /** The percentage is `Math.round(100 * present / held)`: the nearest integer, halves rounded up. */
  lemma PctRounds(present: nat, held: nat)
    requires held > 0
    ensures 2 * held * Pct(present, held) <= 200 * present + held < 2 * held * Pct(present, held) + 2 * held
  {
  }

  lemma MulMono(y: nat, a: nat, b: nat)
    requires a <= b
    ensures y * a <= y * b && y * (a + 1) == y * a + y
  {
    var d := b - a;
    assert y * b == y * a + y * d;
  }

  lemma DivBelow(x: nat, y: nat, z: nat)
    requires y > 0 && x < y * (z + 1)
    ensures x / y <= z
  {
    var q := x / y;
    assert x == y * q + x % y;
    if q >= z + 1 {
      MulMono(y, z + 1, q);
    }
  }

  lemma DivAtLeast(x: nat, y: nat, z: nat)
    requires y > 0 && y * z <= x
    ensures z <= x / y
  {
    var q := x / y;
    assert x == y * q + x % y;
    if q + 1 <= z {
      MulMono(y, q, z);
      MulMono(y, q + 1, z);
    }
  }

  /**
   * With no more present than held days (and fewer than 200 of them, a month
   * has at most 31), the percentage is between 0 and 100, is 100 exactly for
   * full attendance and 0 exactly for none.
   */
  lemma PctRange(present: nat, held: nat)
    requires present <= held < 200
    ensures Pct(present, held) <= 100
    ensures held > 0 ==> (Pct(present, held) == 100 <==> present == held)
    ensures Pct(present, held) == 0 <==> present == 0 || held == 0
  {
    if held > 0 {
      var x, y := 200 * present + held, 2 * held;
      assert Pct(present, held) == x / y;
      DivBelow(x, y, 100);
      if present < held {
        DivBelow(x, y, 99);
      } else {
        DivAtLeast(x, y, 100);
      }
      if present == 0 {
        DivBelow(x, y, 0);
      } else {
        DivAtLeast(x, y, 1);
      }
    }
  }

  /** A character that is not a digit does not start or extend a run. */
  lemma SkipNonDigit(ch: char, s: string)
    requires !IsDigit(ch)
    ensures DigitRuns([ch] + s) == DigitRuns(s)
  {
    assert ([ch] + s)[1..] == s;
  }

  /** A run of digits, then a character that is not a digit and the rest. */
  lemma RunThenChar(a: string, ch: char, s: string)
    requires a != [] && AllDigits(a) && !IsDigit(ch)
    ensures DigitRuns(a + ([ch] + s)) == [a] + DigitRuns(s)
  {
    DigitRunsCons(a, [ch] + s);
    SkipNonDigit(ch, s);
  }

  lemma PercentTail(c: string)
    requires c != [] && AllDigits(c)
    ensures DigitRuns(c + "%)") == [c]
  {
    SkipNonDigit(')', "");
    assert DigitRuns("") == [];
    assert [')'] + "" == ")";
    RunThenChar(c, '%', ")");
    assert "%)" == ['%'] + ")";
  }

  lemma OpenPercent(c: string)
    requires c != [] && AllDigits(c)
    ensures DigitRuns("(" + (c + "%)")) == [c]
  {
    PercentTail(c);
    SkipNonDigit('(', c + "%)");
  }

  lemma HeldAndPercent(b: string, c: string)
    requires b != [] && AllDigits(b) && c != [] && AllDigits(c)
    ensures DigitRuns(b + (" (" + (c + "%)"))) == [b, c]
  {
    RunThenOpen(b, c + "%)");
    OpenPercent(c);
  }

  lemma RunThenOpen(b: string, x: string)
    requires b != [] && AllDigits(b)
    ensures DigitRuns(b + (" (" + x)) == [b] + DigitRuns("(" + x)
  {
    assert " (" + x == [' '] + ("(" + x);
    RunThenChar(b, ' ', "(" + x);
  }

  lemma LabelRuns(a: string, b: string, c: string)
    requires a != [] && AllDigits(a) && b != [] && AllDigits(b) && c != [] && AllDigits(c)
    ensures DigitRuns(a + ("/" + (b + (" (" + (c + "%)"))))) == [a, b, c]
  {
    var t := b + (" (" + (c + "%)"));
    HeldAndPercent(b, c);
    RunThenChar(a, '/', t);
    assert "/" + t == ['/'] + t;
  }

  /** The total cell reads back as its three numbers. */
  lemma TotalLabelReadsBack(present: nat, held: nat, pct: nat)
    ensures DigitRuns(TotalLabel(present, held, pct)) == [NatToString(present), NatToString(held), NatToString(pct)]
    ensures DecimalValue(NatToString(present)) == present && DecimalValue(NatToString(held)) == held
    ensures DecimalValue(NatToString(pct)) == pct
  {
    LabelRuns(NatToString(present), NatToString(held), NatToString(pct));
    NatToStringValue(present);
    NatToStringValue(held);
    NatToStringValue(pct);
  }

  /**
   * A report row: one cell per day of the month, and a total whose three
   * numbers are the present count, the held count and the rounded
   * percentage, with present at most held and the percentage at most 100.
   */
  lemma RowProperties(name: string, dates: SA.DateLists, year: int, month: nat, today: int)
    requires 1 <= month <= 12
    ensures var row := RowOf(name, dates, year, month, today);
      var n := DaysIn(year, month);
      var p := CountAttended(row.cells);
      var h := |HeldDays(dates, year, month, today, n)|;
      row.name == name && |row.cells| == n &&
      (forall i :: 0 <= i < n ==> row.cells[i] == CellOf(name, dates, year, month, today, i + 1)) &&
      p <= h <= n && Pct(p, h) <= 100 &&
      DigitRuns(row.total) == [NatToString(p), NatToString(h), NatToString(Pct(p, h))]
  {
    RowOfDaysProperties(name, dates, year, month, today, DaysIn(year, month));
  }

  lemma RowOfDaysProperties(name: string, dates: SA.DateLists, year: int, month: nat, today: int, n: nat)
    requires n <= 31
    ensures var row := RowOfDays(name, dates, year, month, today, n);
      var p := CountAttended(row.cells);
      var h := |HeldDays(dates, year, month, today, n)|;
      row.name == name && |row.cells| == n &&
      (forall i :: 0 <= i < n ==> row.cells[i] == CellOf(name, dates, year, month, today, i + 1)) &&
      p <= h <= n && Pct(p, h) <= 100 &&
      DigitRuns(row.total) == [NatToString(p), NatToString(h), NatToString(Pct(p, h))]
  {
    var cells := Cells(name, dates, year, month, today, n);
    var p := CountAttended(cells);
    var h := |HeldDays(dates, year, month, today, n)|;
    assert RowOfDays(name, dates, year, month, today, n) == ReportRow(name, cells, TotalLabel(p, h, Pct(p, h)));
    forall i | 0 <= i < n ensures cells[i] == CellOf(name, dates, year, month, today, i + 1) { }
    assert p <= h <= n && Pct(p, h) <= 100 by {
      PresentWithinHeld(name, dates, year, month, today, n);
      PctRange(p, h);
    }
    TotalLabelReadsBack(p, h, Pct(p, h));
  }

}
