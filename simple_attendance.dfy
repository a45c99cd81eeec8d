/**
 * The two simple attendance summaries, `getAttendanceSummary` of the SQLite
 * model and `get_attendance_summary` of the Flask service: every meeting with
 * the requested name contributes its attendee pieces to a roster and, for each
 * date key that starts with the month text, its present list to that date.
 */
module SimpleAttendance {
  import opened Common
  import opened Text
  import opened Seqs
  import opened Meetings
  import opened OrderedMaps

  /** A JSON object of date keys to name lists. */
  type DateLists = OMap<seq<string>>

  /** `obj[k] || []`. */
  function Listed(m: DateLists, k: string): seq<string> {
    Get(m, k).GetOr([])
  }

  /** `if (!dateMap[date]) dateMap[date] = []; dateMap[date].push(...list)`. */
  function Push(m: DateLists, k: string, xs: seq<string>): (r: DateLists)
    requires UniqueKeys(m)
    ensures UniqueKeys(r)
    ensures forall j :: Has(r, j) <==> Has(m, j) || j == k
    ensures forall j :: Listed(r, j) == if j == k then Listed(m, j) + xs else Listed(m, j)
  {
    Put(m, k, Listed(m, k) + xs)
  }

  /** The lists one object holds under `k`, when `k` starts with `month`, in entry order. */
  function Matching(es: DateLists, k: string, month: string): (r: seq<string>)
    ensures !StartsWith(k, month) ==> r == []
  {
    if es == [] then []
    else
      var e := es[|es| - 1];
      Matching(es[..|es| - 1], k, month) + (if e.0 == k && StartsWith(k, month) then e.1 else [])
  }

  lemma {:induction false} HasLast(es: DateLists, k: string)
    requires es != []
    ensures Has(es, k) <==> Has(es[..|es| - 1], k) || es[|es| - 1].0 == k
    decreases |es|
  {
    if |es| > 1 {
      assert es[1..][..|es| - 2] == es[..|es| - 1][1..];
      HasLast(es[1..], k);
    }
  }

  /** Folds the entries of one object whose date starts with `month` into the map. */
  function PushEntries(m: DateLists, es: DateLists, month: string): (r: DateLists)
    requires UniqueKeys(m)
    ensures UniqueKeys(r)
    ensures forall k :: Has(r, k) <==> Has(m, k) || (StartsWith(k, month) && Has(es, k))
    ensures forall k :: Listed(r, k) == Listed(m, k) + Matching(es, k, month)
  {
    if es == [] then m
    else
      var p := PushEntries(m, es[..|es| - 1], month);
      var e := es[|es| - 1];
      var r := if StartsWith(e.0, month) then Push(p, e.0, e.1) else p;
      PushEntriesKeys(m, es, month, p, r);
      PushEntriesLists(m, es, month, p, r);
      r
  }

  /** The keys after one more entry: the entry's key joins when it starts with the month. */
  lemma PushEntriesKeys(m: DateLists, es: DateLists, month: string, p: DateLists, r: DateLists)
    requires es != [] && UniqueKeys(p)
    requires forall k :: Has(p, k) <==> Has(m, k) || (StartsWith(k, month) && Has(es[..|es| - 1], k))
    requires r == if StartsWith(es[|es| - 1].0, month) then Push(p, es[|es| - 1].0, es[|es| - 1].1) else p
    ensures forall k :: Has(r, k) <==> Has(m, k) || (StartsWith(k, month) && Has(es, k))
  {
    forall k ensures Has(r, k) <==> Has(m, k) || (StartsWith(k, month) && Has(es, k)) {
      HasLast(es, k);
    }
  }

  /** The lists after one more entry: its list is appended under its key when the key starts with the month. */
  lemma PushEntriesLists(m: DateLists, es: DateLists, month: string, p: DateLists, r: DateLists)
    requires es != [] && UniqueKeys(p)
    requires forall k :: Listed(p, k) == Listed(m, k) + Matching(es[..|es| - 1], k, month)
    requires r == if StartsWith(es[|es| - 1].0, month) then Push(p, es[|es| - 1].0, es[|es| - 1].1) else p
    ensures forall k :: Listed(r, k) == Listed(m, k) + Matching(es, k, month)
  {
    var e := es[|es| - 1];
    forall k ensures Listed(r, k) == Listed(m, k) + Matching(es, k, month) {
      var tail := if e.0 == k && StartsWith(k, month) then e.1 else [];
      assert Matching(es, k, month) == Matching(es[..|es| - 1], k, month) + tail;
      assert Listed(r, k) == Listed(p, k) + tail;
    }
  }

  /** One `meetings` row as the summaries read it. */
  datatype MeetingRow = MeetingRow(meetingName: string, attendees: AttendeesInput, presentByDate: Option<DateLists>)

  /** `m.present_by_date ? JSON.parse(m.present_by_date) : {}`, the text already parsed. */
  function Present(m: MeetingRow): DateLists {
    m.presentByDate.GetOr([])
  }

  /** `SELECT * FROM meetings WHERE meetingName = ?`, in table order. */
  function RowsNamed(table: seq<MeetingRow>, name: string): (r: seq<MeetingRow>)
    ensures forall m :: m in r <==> m in table && m.meetingName == name
  {
    Filter(table, (m: MeetingRow) => m.meetingName == name)
  }

  predicate OccursIn(rows: seq<MeetingRow>, k: string) {
    exists i :: 0 <= i < |rows| && Has(Present(rows[i]), k)
  }

  /** Every list filed under `k` by any row, in row order and then entry order. */
  function Collected(rows: seq<MeetingRow>, k: string, month: string): seq<string> {
    if rows == [] then []
    else Collected(rows[..|rows| - 1], k, month) + Matching(Present(rows[|rows| - 1]), k, month)
  }

  lemma OccursInLast(rows: seq<MeetingRow>, k: string)
    requires rows != []
    ensures OccursIn(rows, k) <==> OccursIn(rows[..|rows| - 1], k) || Has(Present(rows[|rows| - 1]), k)
  {
    if OccursIn(rows, k) {
      var i :| 0 <= i < |rows| && Has(Present(rows[i]), k);
      if i < |rows| - 1 {
        assert rows[..|rows| - 1][i] == rows[i];
      }
    }
  }

  /**
   * The `dates` object of both summaries: a date is a key exactly when it
   * starts with the month and some row has it, and its list is every list
   * filed under it, duplicates kept.
   */
  function Aggregate(rows: seq<MeetingRow>, month: string): (r: DateLists)
    ensures UniqueKeys(r)
    ensures forall k :: Has(r, k) <==> StartsWith(k, month) && OccursIn(rows, k)
    ensures forall k :: Listed(r, k) == Collected(rows, k, month)
  {
    if rows == [] then []
    else
      forall k ensures OccursIn(rows, k) <==> OccursIn(rows[..|rows| - 1], k) || Has(Present(rows[|rows| - 1]), k) {
        OccursInLast(rows, k);
      }
      PushEntries(Aggregate(rows[..|rows| - 1], month), Present(rows[|rows| - 1]), month)
  }

  /** `m.attendees.split(',').map(a => a.trim())`; `None` where the column is not a text. */
  function JsPieces(a: AttendeesInput): Option<seq<string>> {
    if a.Text? then Some(TrimAll(Split(a.text, ','))) else None
  }

  /** Every row has its attendees as a text. */
  predicate AllText(rows: seq<MeetingRow>) {
    forall i :: 0 <= i < |rows| ==> rows[i].attendees.Text?
  }

  lemma AllTextLast(rows: seq<MeetingRow>)
    requires rows != []
    ensures AllText(rows) <==> AllText(rows[..|rows| - 1]) && rows[|rows| - 1].attendees.Text?
  {
    assert forall i :: 0 <= i < |rows| - 1 ==> rows[..|rows| - 1][i] == rows[i];
  }

  /**
   * `addMeeting` of the SQLite model: an array is stored joined with `", "`,
   * any other value as given, so missing attendees are stored as NULL; the
   * present lists default to an empty object.
   */
  function ModelAddMeeting(name: string, a: AttendeesInput, present: Option<DateLists>): (r: MeetingRow)
    ensures r.meetingName == name && r.presentByDate.Some?
    ensures a.Names? ==> r.attendees == Text(AttendeesColumn(a))
    ensures !a.Names? ==> r.attendees == a
    ensures Present(r) == present.GetOr([])
  {
    var column := if a.Names? then Text(AttendeesColumn(a)) else a;
    MeetingRow(name, column, Some(present.GetOr([])))
  }

  /** A meeting added with an array of trimmed, comma-free names contributes exactly those names to the summary. */
  lemma ModelAddRoundTrip(name: string, names: seq<string>, present: Option<DateLists>)
    requires names != [] && names != [""]
    requires forall i :: 0 <= i < |names| ==> ',' !in names[i] && IsTrimmed(names[i])
    ensures JsPieces(ModelAddMeeting(name, Names(names), present).attendees) == Some(names)
  {
    ReadBack(names);
    assert Join(names, ", ") != "" by {
      if Join(names, ", ") == "" { JoinEmpty(names); }
    }
  }

  /**
   * A meeting added without attendees is stored as NULL, on which `split`
   * throws: from then on no summary for that meeting name is produced.
   */
  lemma ModelAddAbsentBlocksSummary(table: seq<MeetingRow>, name: string, present: Option<DateLists>)
    ensures JsAllPieces(RowsNamed(table + [ModelAddMeeting(name, Absent, present)], name)).None?
  {
    var row := ModelAddMeeting(name, Absent, present);
    var rows := RowsNamed(table + [row], name);
    assert row in table + [row];
    assert row in rows;
    var i :| 0 <= i < |rows| && rows[i] == row;
    assert !rows[i].attendees.Text?;
  }

  /** The pieces of every row in order; `None` when some row has no attendee text. */
  function JsAllPieces(rows: seq<MeetingRow>): (r: Option<seq<string>>)
    ensures r.Some? <==> AllText(rows)
  {
    if rows == [] then Some([])
    else
      var p := JsAllPieces(rows[..|rows| - 1]);
      var last := rows[|rows| - 1];
      AllTextLast(rows);
      if p.None? || !last.attendees.Text? then None
      else Some(p.value + JsPieces(last.attendees).value)
  }

  datatype Summary = Summary(attendees: seq<string>, dates: DateLists)

  lemma JsAllPiecesStep(rows: seq<MeetingRow>, i: nat)
    requires i < |rows| && AllText(rows[..i]) && rows[i].attendees.Text?
    ensures AllText(rows[..i + 1])
    ensures JsAllPieces(rows[..i + 1]) == Some(JsAllPieces(rows[..i]).value + JsPieces(rows[i].attendees).value)
  {
    var p := rows[..i + 1];
    assert p[..i] == rows[..i] && p[i] == rows[i];
    AllTextLast(p);
  }

  lemma AggregateStep(rows: seq<MeetingRow>, i: nat, month: string)
    requires i < |rows|
    ensures Aggregate(rows[..i + 1], month) == PushEntries(Aggregate(rows[..i], month), Present(rows[i]), month)
  {
    var p := rows[..i + 1];
    assert p[..i] == rows[..i] && p[i] == rows[i];
  }

  /** `pieces.forEach(a => attendeesSet.add(a))` on an insertion-ordered set. */
  method AddAll(roster: seq<string>, ghost before: seq<string>, pieces: seq<string>) returns (out: seq<string>)
    requires roster == Distinct(before)
    ensures out == Distinct(before + pieces)
  {
    out := roster;
    var j := 0;
    assert before + pieces[..0] == before;
    while j < |pieces|
      invariant 0 <= j <= |pieces|
      invariant out == Distinct(before + pieces[..j])
    {
      DistinctSnoc(before + pieces[..j], pieces[j]);
      assert before + pieces[..j + 1] == (before + pieces[..j]) + [pieces[j]];
      if pieces[j] !in out {
        out := out + [pieces[j]];
      }
      j := j + 1;
    }
    assert pieces[..j] == pieces;
  }

  /** `Object.entries(presentByDate).forEach(...)`: each date of the month extends its list. */
  method PushAll(dates: DateLists, es: DateLists, month: string) returns (out: DateLists)
    requires UniqueKeys(dates)
    ensures out == PushEntries(dates, es, month)
  {
    out := dates;
    var k := 0;
    while k < |es|
      invariant 0 <= k <= |es| && UniqueKeys(out)
      invariant out == PushEntries(dates, es[..k], month)
    {
      assert es[..k + 1][..k] == es[..k] && es[..k + 1][k] == es[k];
      if StartsWith(es[k].0, month) {
        out := Push(out, es[k].0, es[k].1);
      }
      k := k + 1;
    }
    assert es[..k] == es;
  }

  /**
   * `getAttendanceSummary(meetingName, month)` of the SQLite model. A row
   * whose attendees are not a text makes `split` throw; the summary is then
   * never produced, which is `None` here.
   */
  method ModelSummary(table: seq<MeetingRow>, meetingName: string, month: string) returns (r: Option<Summary>)
    ensures var rows := RowsNamed(table, meetingName);
      (r.None? <==> JsAllPieces(rows).None?) &&
      (r.Some? ==> r.value.attendees == Distinct(JsAllPieces(rows).value) && r.value.dates == Aggregate(rows, month))
  {
    var rows := RowsNamed(table, meetingName);
    var roster: seq<string> := [];
    var dates: DateLists := [];
    var i := 0;
    while i < |rows|
      invariant 0 <= i <= |rows|
      invariant AllText(rows[..i])
      invariant roster == Distinct(JsAllPieces(rows[..i]).value)
      invariant dates == Aggregate(rows[..i], month)
    {
      var m := rows[i];
      if !m.attendees.Text? {
        return None;
      }
      var pieces := TrimAll(Split(m.attendees.text, ','));
      JsAllPiecesStep(rows, i);
      AggregateStep(rows, i, month);
      roster := AddAll(roster, JsAllPieces(rows[..i]).value, pieces);
      dates := PushAll(dates, Present(m), month);
      i := i + 1;
    }
    assert rows[..i] == rows;
    r := Some(Summary(roster, dates));
  }

  /** Python `[a.strip() for a in pieces]`. */
  function StripAll(parts: seq<string>): (r: seq<string>)
    ensures |r| == |parts|
    ensures forall i :: 0 <= i < |parts| ==> r[i] == PyStrip(parts[i])
  {
    if parts == [] then [] else [PyStrip(parts[0])] + StripAll(parts[1..])
  }

  /** `m.attendees if isinstance(m.attendees, list) else (m.attendees or '').split(',')`, stripped. */
  function PyPieces(a: AttendeesInput): seq<string> {
    match a
    case Names(ns) => StripAll(ns)
    case Text(t) => StripAll(Split(t, ','))
    case Absent => StripAll(Split("", ','))
  }

  function PyAllPieces(rows: seq<MeetingRow>): seq<string> {
    if rows == [] then [] else PyAllPieces(rows[..|rows| - 1]) + PyPieces(rows[|rows| - 1].attendees)
  }

  lemma PyAllPiecesStep(rows: seq<MeetingRow>, i: nat)
    requires i < |rows|
    ensures PyAllPieces(rows[..i + 1]) == PyAllPieces(rows[..i]) + PyPieces(rows[i].attendees)
  {
    var p := rows[..i + 1];
    assert p[..i] == rows[..i] && p[i] == rows[i];
  }

  /**
   * The `attendees` answer of the Flask service, `sorted(attendees_set)`:
   * every stripped piece once, in code-point order.
   */
  lemma SortedRoster(pieces: seq<string>)
    ensures var r := SortBy(Distinct(pieces), StrLe);
      Sorted(r, StrLe) && NoDuplicates(r) && (forall x :: x in r <==> x in pieces)
  {
    var d := Distinct(pieces);
    StrLeTotalPreorder();
    SortBySorted(d, StrLe);
    NoDuplicatesPermutation(d, SortBy(d, StrLe));
    assert forall x :: x in SortBy(d, StrLe) <==> x in multiset(d);
  }

  /**
   * `GET /attendance-summary` of the Flask service: 400 unless both
   * parameters are given and non-empty, else the sorted roster and the
   * dates of the month.
   */
  method FlaskSummary(table: seq<MeetingRow>, meetingName: Option<string>, month: Option<string>)
    returns (st: Status, r: Option<Summary>)
    ensures !(Truthy(meetingName) && Truthy(month)) <==> st == BadRequest
    ensures st == BadRequest ==> r.None?
    ensures st != BadRequest ==> (
      var rows := RowsNamed(table, meetingName.value);
      st == Ok && r.Some? &&
      r.value.attendees == SortBy(Distinct(PyAllPieces(rows)), StrLe) &&
      r.value.dates == Aggregate(rows, month.value))
  {
    if !(Truthy(meetingName) && Truthy(month)) {
      return BadRequest, None;
    }
    var rows := RowsNamed(table, meetingName.value);
    var seen: seq<string> := [];
    var dates: DateLists := [];
    var i := 0;
    while i < |rows|
      invariant 0 <= i <= |rows|
      invariant seen == Distinct(PyAllPieces(rows[..i]))
      invariant dates == Aggregate(rows[..i], month.value)
    {
      var m := rows[i];
      PyAllPiecesStep(rows, i);
      AggregateStep(rows, i, month.value);
      seen := AddAll(seen, PyAllPieces(rows[..i]), PyPieces(m.attendees));
      dates := PushAll(dates, Present(m), month.value);
      i := i + 1;
    }
    assert rows[..i] == rows;
    st, r := Ok, Some(Summary(SortBy(seen, StrLe), dates));
  }
}
