/**
 * `GET /attendance-summary` of both Express backends. A first pass builds
 * the roster from every meeting's attendee text; a second pass files each
 * present name of each kept date into that date's bucket, adding unknown
 * names to the roster. The answer lists the roster's display names and, for
 * each kept date in key order, its bucket's names, both sorted with
 * `localeCompare` at base sensitivity.
 */
module AttendanceSummary {
  import opened Common
  import opened Text
  import opened Seqs
  import opened Calendar
  import opened DateKeys
  import opened OrderedMaps
  import opened AttendanceNames
  import opened AttendanceDates

  /** A present list as JSON gives it: an array of names (`None` for a null), or no array at all. */
  type PresentValue = Option<seq<Option<string>>>

  /** One `meetings` row as the summary reads it; `presentByDate` is already parsed. */
  datatype AttRow = AttRow(meetingName: string, attendees: Option<string>, presentByDate: Option<OMap<PresentValue>>)

  /** `m.present_by_date || {}` after parsing. */
  function Present(m: AttRow): OMap<PresentValue> {
    m.presentByDate.GetOr([])
  }

  /** `WHERE meeting_name = $1`, in table order. */
  function RowsNamed(table: seq<AttRow>, name: string): (r: seq<AttRow>)
    ensures forall m :: m in r <==> m in table && m.meetingName == name
  {
    Filter(table, (m: AttRow) => m.meetingName == name)
  }

  // ---------------------------------------------------------------- first pass

  /** `(m.attendees ? m.attendees.split(',') : []).map(norm).filter(Boolean)`. */
  function BaseAttendees(a: Option<string>): (r: seq<string>)
    ensures forall x :: x in r ==> x != "" && IsTrimmed(x)
  {
    if a.None? || a.value == "" then []
    else
      CleanedTrimmed(Split(a.value, ','));
      NonEmpty(TrimAll(Split(a.value, ',')))
  }

  /** The base attendees of every row, in row order. */
  function AllBase(rows: seq<AttRow>): seq<string> {
    if rows == [] then [] else AllBase(rows[..|rows| - 1]) + BaseAttendees(rows[|rows| - 1].attendees)
  }

  /**
   * The roster after the first pass: one entry per non-empty canonical key
   * among the names, under the first name that has it.
   */
  function RosterOf(names: seq<string>): (r: OMap<string>)
    ensures RosterCanonical(r)
  {
    if names == [] then [] else AddBase(RosterOf(names[..|names| - 1]), names[|names| - 1])
  }

  /** The roster's keys are exactly the non-empty canonical keys of the names. */
  lemma {:induction false} RosterKeys(names: seq<string>)
    ensures forall k :: Has(RosterOf(names), k) <==> k != "" && exists i :: 0 <= i < |names| && Canonical(names[i]) == k
  {
    if names != [] {
      var p := names[..|names| - 1];
      RosterKeys(p);
      KeysSnoc(p, names, RosterOf(p), RosterOf(names));
    }
  }

  lemma KeysSnoc(p: seq<string>, names: seq<string>, q: OMap<string>, r: OMap<string>)
    requires |names| == |p| + 1 && forall i :: 0 <= i < |p| ==> names[i] == p[i]
    requires RosterCanonical(q) && r == AddBase(q, names[|p|])
    requires forall k :: Has(q, k) <==> k != "" && exists i :: 0 <= i < |p| && Canonical(p[i]) == k
    ensures forall k :: Has(r, k) <==> k != "" && exists i :: 0 <= i < |names| && Canonical(names[i]) == k
  {
    var c := Canonical(names[|p|]);
    forall k ensures Has(r, k) <==> k != "" && exists i :: 0 <= i < |names| && Canonical(names[i]) == k {
      if Has(q, k) {
        var i :| 0 <= i < |p| && Canonical(p[i]) == k;
        assert names[i] == p[i];
      }
      if k == c && k != "" {
        assert Canonical(names[|p|]) == k;
      }
      if k != "" && exists i :: 0 <= i < |names| && Canonical(names[i]) == k {
        var i :| 0 <= i < |names| && Canonical(names[i]) == k;
        if i < |p| {
          assert Canonical(p[i]) == k;
          assert Has(q, k);
        } else {
          assert i == |p|;
        }
      }
    }
  }

  /** The display form kept for a key is the first name carrying it. */
  lemma {:induction false} RosterFirstSeen(names: seq<string>, i: int)
    requires 0 <= i < |names| && Canonical(names[i]) != ""
    requires forall j :: 0 <= j < i ==> Canonical(names[j]) != Canonical(names[i])
    ensures Get(RosterOf(names), Canonical(names[i])) == Some(names[i])
  {
    var p := names[..|names| - 1];
    var c := Canonical(names[i]);
    RosterOfLast(names);
    if i < |names| - 1 {
      assert Get(RosterOf(p), c) == Some(names[i]) by {
        assert p[i] == names[i];
        forall j | 0 <= j < i ensures Canonical(p[j]) != c { assert p[j] == names[j]; }
        RosterFirstSeen(p, i);
      }
      AddBaseKeeps(RosterOf(p), names[|names| - 1], c, names[i]);
    } else {
      assert forall j :: 0 <= j < |p| ==> Canonical(p[j]) != c by {
        forall j | 0 <= j < |p| ensures Canonical(p[j]) != c { assert p[j] == names[j]; }
      }
      AddBaseFirst(p, names[i]);
    }
  }

  lemma RosterOfLast(names: seq<string>)
    requires names != []
    ensures RosterOf(names) == AddBase(RosterOf(names[..|names| - 1]), names[|names| - 1])
  {
  }

  /** Adding one name keeps every key already on the roster. */
  lemma AddBaseKeeps(q: OMap<string>, a: string, c: string, v: string)
    requires RosterCanonical(q) && Get(q, c) == Some(v)
    ensures Get(AddBase(q, a), c) == Some(v)
  {
  }

  /** A name whose key no earlier name has is filed under itself. */
  lemma AddBaseFirst(p: seq<string>, a: string)
    requires Canonical(a) != "" && forall j :: 0 <= j < |p| ==> Canonical(p[j]) != Canonical(a)
    ensures Get(AddBase(RosterOf(p), a), Canonical(a)) == Some(a)
  {
    RosterKeys(p);
    assert !Has(RosterOf(p), Canonical(a));
  }

  // --------------------------------------------------------------- second pass

  /** The roster, and for each kept date key its bucket. */
  datatype Tally = Tally(roster: OMap<string>, dates: OMap<OMap<string>>)

  ghost predicate AllAgree(dates: OMap<OMap<string>>, roster: OMap<string>) {
    forall k :: Has(dates, k) ==> BucketAgrees(Get(dates, k).value, roster)
  }

  ghost predicate DatesKept(dates: OMap<OMap<string>>, w: Window) {
    forall k :: Has(dates, k) ==> KeptKey(k, w)
  }

  /** What the second pass keeps true: a canonical roster, kept date keys, buckets that agree with the roster. */
  ghost predicate Good(t: Tally, w: Window) {
    RosterCanonical(t.roster) && UniqueKeys(t.dates) && DatesKept(t.dates, w) && AllAgree(t.dates, t.roster)
  }

  lemma OthersAgree(dates: OMap<OMap<string>>, r1: OMap<string>, r2: OMap<string>)
    requires AllAgree(dates, r1) && Extends(r1, r2)
    ensures AllAgree(dates, r2)
  {
    forall k | Has(dates, k) ensures BucketAgrees(Get(dates, k).value, r2) {
      AgreesExtended(Get(dates, k).value, r1, r2);
    }
  }

  /** The names of one list, in order, into the roster and one bucket. */
  function AddNames(roster: OMap<string>, bucket: OMap<string>, names: seq<Option<string>>): (r: (OMap<string>, OMap<string>))
    requires RosterCanonical(roster) && BucketAgrees(bucket, roster)
    ensures RosterCanonical(r.0) && Extends(roster, r.0) && BucketAgrees(r.1, r.0)
  {
    if names == [] then (roster, bucket)
    else
      var p := AddNames(roster, bucket, names[..|names| - 1]);
      var q := AddName(p.0, p.1, names[|names| - 1]);
      ExtendsTrans(roster, p.0, q.0);
      q
  }

  /** `if (!dateMap.has(key)) dateMap.set(key, new Map())`. */
  function EnsureBucket(t: Tally, key: string, w: Window): (r: OMap<OMap<string>>)
    requires Good(t, w) && KeptKey(key, w)
    ensures UniqueKeys(r) && DatesKept(r, w) && AllAgree(r, t.roster) && Has(r, key)
    ensures forall k :: Has(r, k) <==> Has(t.dates, k) || k == key
  {
    if Has(t.dates, key) then t.dates
    else
      EmptyBucketKept(t.dates, key, w);
      assert BucketAgrees([], t.roster);
      WriteBackAgrees(t.dates, key, t.roster, []);
      Put(t.dates, key, [])
  }

  lemma EmptyBucketKept(dates: OMap<OMap<string>>, key: string, w: Window)
    requires UniqueKeys(dates) && DatesKept(dates, w) && KeptKey(key, w)
    ensures DatesKept(Put(dates, key, []), w)
  {
  }

  /** The bucket written back after its names are filed; every other bucket is untouched. */
  lemma WriteBack(dates: OMap<OMap<string>>, key: string, w: Window, r1: OMap<string>, r2: OMap<string>, b: OMap<string>)
    requires UniqueKeys(dates) && DatesKept(dates, w) && AllAgree(dates, r1) && Has(dates, key)
    requires Extends(r1, r2) && BucketAgrees(b, r2)
    ensures DatesKept(Put(dates, key, b), w) && AllAgree(Put(dates, key, b), r2)
  {
    WriteBackKept(dates, key, w, b);
    OthersAgree(dates, r1, r2);
    WriteBackAgrees(dates, key, r2, b);
  }

  lemma WriteBackKept(dates: OMap<OMap<string>>, key: string, w: Window, b: OMap<string>)
    requires UniqueKeys(dates) && DatesKept(dates, w) && Has(dates, key)
    ensures DatesKept(Put(dates, key, b), w)
  {
  }

  lemma WriteBackAgrees(dates: OMap<OMap<string>>, key: string, r: OMap<string>, b: OMap<string>)
    requires UniqueKeys(dates) && AllAgree(dates, r) && BucketAgrees(b, r)
    ensures AllAgree(Put(dates, key, b), r)
  {
    var d := Put(dates, key, b);
    forall k | Has(d, k) ensures BucketAgrees(Get(d, k).value, r) {
      if k != key {
        assert Has(dates, k) && Get(d, k) == Get(dates, k);
      }
    }
  }

  /** One entry `[rawDate, presentRaw]` of a row's object. */
  function AddEntry(t: Tally, e: (string, PresentValue), w: Window): (r: Tally)
    requires Good(t, w)
    ensures Good(r, w) && Extends(t.roster, r.roster)
    ensures forall k :: Has(r.dates, k) <==> Has(t.dates, k) || KeepKey(e.0, w) == Some(k)
  {
    match KeepKey(e.0, w)
    case None => t
    case Some(key) =>
      KeepKeyKept(e.0, w);
      FileUnder(t, key, e.1.GetOr([]), w)
  }

  /** A kept key's bucket, created if missing, receives the names of one list. */
  function FileUnder(t: Tally, key: string, names: seq<Option<string>>, w: Window): (r: Tally)
    requires Good(t, w) && KeptKey(key, w)
    ensures Good(r, w) && Extends(t.roster, r.roster)
    ensures forall k :: Has(r.dates, k) <==> Has(t.dates, k) || k == key
  {
    var dates1 := EnsureBucket(t, key, w);
    var named := AddNames(t.roster, Get(dates1, key).value, names);
    WriteBack(dates1, key, w, t.roster, named.0, named.1);
    Tally(named.0, Put(dates1, key, named.1))
  }

  /** The date keys one object contributes. */
  function EntryKeys(es: OMap<PresentValue>, w: Window): set<string> {
    if es == [] then {}
    else
      var r := KeepKey(es[|es| - 1].0, w);
      EntryKeys(es[..|es| - 1], w) + (if r.Some? then {r.value} else {})
  }

  /** Every entry of one object, in order. */
  function AddEntries(t: Tally, es: OMap<PresentValue>, w: Window): (r: Tally)
    requires Good(t, w)
    ensures Good(r, w) && Extends(t.roster, r.roster)
    ensures forall k :: Has(r.dates, k) <==> Has(t.dates, k) || k in EntryKeys(es, w)
  {
    if es == [] then t
    else
      var p := AddEntries(t, es[..|es| - 1], w);
      var q := AddEntry(p, es[|es| - 1], w);
      ExtendsTrans(t.roster, p.roster, q.roster);
      q
  }

  /** The date keys all rows contribute. */
  function RowKeys(rows: seq<AttRow>, w: Window): set<string> {
    if rows == [] then {} else RowKeys(rows[..|rows| - 1], w) + EntryKeys(Present(rows[|rows| - 1]), w)
  }

  /** The second pass over every row. */
  function AddRows(t: Tally, rows: seq<AttRow>, w: Window): (r: Tally)
    requires Good(t, w)
    ensures Good(r, w) && Extends(t.roster, r.roster)
    ensures forall k :: Has(r.dates, k) <==> Has(t.dates, k) || k in RowKeys(rows, w)
  {
    if rows == [] then t
    else
      var p := AddRows(t, rows[..|rows| - 1], w);
      var q := AddEntries(p, Present(rows[|rows| - 1]), w);
      ExtendsTrans(t.roster, p.roster, q.roster);
      q
  }

  /** Both passes. */
  function TallyOf(rows: seq<AttRow>, w: Window): (r: Tally)
    ensures Good(r, w)
    ensures forall k :: Has(r.dates, k) <==> k in RowKeys(rows, w)
  {
    var t := Tally(RosterOf(AllBase(rows)), []);
    assert Good(t, w);
    AddRows(t, rows, w)
  }

  // -------------------------------------------------------------------- answer

  datatype Summary = Summary(attendees: seq<string>, dates: seq<(string, seq<string>)>)

  /** `dates[k] = Array.from(nameMap.values()).sort(...)` for each key in the given order. */
  function DatesOut(keys: seq<string>, dates: OMap<OMap<string>>, le: (string, string) -> bool): (r: seq<(string, seq<string>)>)
    ensures |r| == |keys|
    ensures forall i :: 0 <= i < |keys| ==> r[i] == (keys[i], SortBy(Values(Get(dates, keys[i]).GetOr([])), le))
  {
    seq(|keys|, i requires 0 <= i < |keys| => (keys[i], SortBy(Values(Get(dates, keys[i]).GetOr([])), le)))
  }

  /** The answer built from a finished tally: roster names sorted, dates in key order. */
  function Finish(t: Tally, le: (string, string) -> bool): (s: Summary)
    ensures s.attendees == SortBy(Values(t.roster), le)
    ensures |s.dates| == |t.dates|
    ensures forall i :: 0 <= i < |s.dates| ==>
      s.dates[i].0 == SortBy(Keys(t.dates), StrLe)[i] &&
      s.dates[i].1 == SortBy(Values(Get(t.dates, s.dates[i].0).GetOr([])), le)
  {
    Summary(SortBy(Values(t.roster), le), DatesOut(SortBy(Keys(t.dates), StrLe), t.dates, le))
  }

  /** The answer for the rows of one meeting name and a month window. */
  function SummaryOf(rows: seq<AttRow>, w: Window, le: (string, string) -> bool): Summary {
    Finish(TallyOf(rows, w), le)
  }

  /**
   * What the answer promises: the roster is sorted and lists each canonical
   * key once; the dates are exactly the kept keys, in strictly increasing key
   * order; each date's names are sorted, are all on the roster, and never
   * repeat a canonical key.
   */
  lemma SummaryProperties(rows: seq<AttRow>, w: Window, le: (string, string) -> bool)
    requires TotalPreorder(le)
    ensures var s := SummaryOf(rows, w, le);
      Sorted(s.attendees, le) &&
      (forall i, j :: 0 <= i < j < |s.attendees| ==> Canonical(s.attendees[i]) != Canonical(s.attendees[j])) &&
      (forall i, j :: 0 <= i < j < |s.dates| ==> StrLe(s.dates[i].0, s.dates[j].0) && s.dates[i].0 != s.dates[j].0) &&
      (forall k :: k in RowKeys(rows, w) <==> exists i :: 0 <= i < |s.dates| && s.dates[i].0 == k) &&
      (forall i :: 0 <= i < |s.dates| ==> KeptKey(s.dates[i].0, w)) &&
      (forall i :: 0 <= i < |s.dates| ==> Sorted(s.dates[i].1, le)) &&
      (forall i, x :: 0 <= i < |s.dates| && x in s.dates[i].1 ==> x in s.attendees) &&
      (forall i, a, b :: 0 <= i < |s.dates| && 0 <= a < b < |s.dates[i].1| ==>
        Canonical(s.dates[i].1[a]) != Canonical(s.dates[i].1[b]))
  {
    var t := TallyOf(rows, w);
    RosterSorted(t.roster, le);
    FinishKeys(t, w, le);
    FinishBuckets(t, w, le);
  }

  /** The dates of the answer are the tally's keys, each once, in increasing key order, each kept. */
  lemma FinishKeys(t: Tally, w: Window, le: (string, string) -> bool)
    requires Good(t, w)
    ensures var s := Finish(t, le);
      (forall i, j :: 0 <= i < j < |s.dates| ==> StrLe(s.dates[i].0, s.dates[j].0) && s.dates[i].0 != s.dates[j].0) &&
      (forall k :: Has(t.dates, k) <==> exists i :: 0 <= i < |s.dates| && s.dates[i].0 == k) &&
      (forall i :: 0 <= i < |s.dates| ==> KeptKey(s.dates[i].0, w))
  {
    var ks := SortBy(Keys(t.dates), StrLe);
    var ds := Finish(t, le).dates;
    DateKeysSorted(t, w);
    assert |ds| == |ks| && forall i :: 0 <= i < |ks| ==> ds[i].0 == ks[i];
    FirstsOf(ks, ds);
  }

  /** Pairs whose first parts are a given sequence carry exactly its elements. */
  lemma FirstsOf<V>(ks: seq<string>, ds: seq<(string, V)>)
    requires |ds| == |ks| && forall i :: 0 <= i < |ks| ==> ds[i].0 == ks[i]
    ensures forall k :: k in ks <==> exists i :: 0 <= i < |ds| && ds[i].0 == k
  {
    forall k | k in ks ensures exists i :: 0 <= i < |ds| && ds[i].0 == k {
      var i :| 0 <= i < |ks| && ks[i] == k;
      assert ds[i].0 == k;
    }
  }

  /** Each date's names are sorted, on the roster, and never repeat a canonical key. */
  lemma FinishBuckets(t: Tally, w: Window, le: (string, string) -> bool)
    requires Good(t, w) && TotalPreorder(le)
    ensures var s := Finish(t, le);
      (forall i :: 0 <= i < |s.dates| ==> Sorted(s.dates[i].1, le)) &&
      (forall i, x :: 0 <= i < |s.dates| && x in s.dates[i].1 ==> x in s.attendees) &&
      (forall i, a, b :: 0 <= i < |s.dates| && 0 <= a < b < |s.dates[i].1| ==>
        Canonical(s.dates[i].1[a]) != Canonical(s.dates[i].1[b]))
  {
    var s := Finish(t, le);
    DateKeysSorted(t, w);
    forall i | 0 <= i < |s.dates|
      ensures Sorted(s.dates[i].1, le)
      ensures forall x :: x in s.dates[i].1 ==> x in s.attendees
      ensures forall a, b :: 0 <= a < b < |s.dates[i].1| ==> Canonical(s.dates[i].1[a]) != Canonical(s.dates[i].1[b])
    {
      FinishBucket(t, w, le, i);
    }
  }

  lemma FinishBucket(t: Tally, w: Window, le: (string, string) -> bool, i: int)
    requires Good(t, w) && TotalPreorder(le) && 0 <= i < |Finish(t, le).dates|
    ensures var s := Finish(t, le);
      Sorted(s.dates[i].1, le) &&
      (forall x :: x in s.dates[i].1 ==> x in s.attendees) &&
      (forall a, b :: 0 <= a < b < |s.dates[i].1| ==> Canonical(s.dates[i].1[a]) != Canonical(s.dates[i].1[b]))
  {
    var s := Finish(t, le);
    var k := s.dates[i].0;
    DateKeysSorted(t, w);
    assert Has(t.dates, k);
    var b := Get(t.dates, k).value;
    SortBySorted(Values(b), le);
    BucketNames(b, t.roster, le);
  }

  /** The roster, sorted, repeats no canonical key. */
  lemma RosterSorted(roster: OMap<string>, le: (string, string) -> bool)
    requires RosterCanonical(roster) && TotalPreorder(le)
    ensures Sorted(SortBy(Values(roster), le), le)
    ensures forall i, j :: 0 <= i < j < |SortBy(Values(roster), le)| ==>
      Canonical(SortBy(Values(roster), le)[i]) != Canonical(SortBy(Values(roster), le)[j])
  {
    SortBySorted(Values(roster), le);
    ValuesCanonical(roster);
    DistinctByPermutation(Values(roster), SortBy(Values(roster), le), Canonical);
  }

  /** In a map keyed by canonical forms of its values, no two values share a canonical form. */
  lemma ValuesCanonical(m: OMap<string>)
    requires UniqueKeys(m) && forall k :: Has(m, k) ==> Canonical(Get(m, k).value) == k
    ensures forall i, j :: 0 <= i < j < |Values(m)| ==> Canonical(Values(m)[i]) != Canonical(Values(m)[j])
  {
    KeysDistinct(m);
    forall i | 0 <= i < |m| ensures Canonical(Values(m)[i]) == Keys(m)[i] {
      GetEntry(m, i);
      HasIndex(m, m[i].0);
    }
  }

  /** A bucket's names, sorted: on the roster and free of repeated canonical keys. */
  lemma BucketNames(b: OMap<string>, roster: OMap<string>, le: (string, string) -> bool)
    requires RosterCanonical(roster) && BucketAgrees(b, roster)
    ensures forall x :: x in SortBy(Values(b), le) ==> x in SortBy(Values(roster), le)
    ensures forall i, j :: 0 <= i < j < |SortBy(Values(b), le)| ==>
      Canonical(SortBy(Values(b), le)[i]) != Canonical(SortBy(Values(b), le)[j])
  {
    forall x | x in SortBy(Values(b), le) ensures x in SortBy(Values(roster), le) {
      assert x in multiset(Values(b));
      var i :| 0 <= i < |b| && Values(b)[i] == x;
      GetEntry(b, i);
      HasIndex(b, b[i].0);
      GetInValues(roster, b[i].0);
      assert x in multiset(Values(roster));
    }
    forall k | Has(b, k) ensures Canonical(Get(b, k).value) == k {
      assert Get(b, k) == Get(roster, k);
    }
    ValuesCanonical(b);
    DistinctByPermutation(Values(b), SortBy(Values(b), le), Canonical);
  }

  /** The date keys, sorted, are strictly increasing, are the kept keys, and each is kept. */
  lemma DateKeysSorted(t: Tally, w: Window)
    requires Good(t, w)
    ensures var ks := SortBy(Keys(t.dates), StrLe);
      (forall i, j :: 0 <= i < j < |ks| ==> StrLe(ks[i], ks[j]) && ks[i] != ks[j]) &&
      (forall k :: Has(t.dates, k) <==> k in ks) &&
      (forall i :: 0 <= i < |ks| ==> KeptKey(ks[i], w))
  {
    var ks := SortBy(Keys(t.dates), StrLe);
    StrLeTotalPreorder();
    SortBySorted(Keys(t.dates), StrLe);
    KeysDistinct(t.dates);
    NoDuplicatesPermutation(Keys(t.dates), ks);
    forall k ensures Has(t.dates, k) <==> k in ks {
      HasIndex(t.dates, k);
      assert k in ks <==> k in multiset(ks);
    }
  }

  // ------------------------------------------------------------------ handler

  lemma SnocSlice<T>(a: seq<T>, b: seq<T>, j: int)
    requires 0 <= j < |b|
    ensures a + b[..j + 1] == (a + b[..j]) + [b[j]]
  {
    assert b[..j + 1] == b[..j] + [b[j]];
  }

  lemma RosterOfSnoc(names: seq<string>, a: string)
    ensures RosterOf(names + [a]) == AddBase(RosterOf(names), a)
  {
    assert (names + [a])[..|names|] == names;
  }

  lemma AddNamesSnoc(roster: OMap<string>, bucket: OMap<string>, list: seq<Option<string>>, j: int)
    requires RosterCanonical(roster) && BucketAgrees(bucket, roster) && 0 <= j < |list|
    ensures var p := AddNames(roster, bucket, list[..j]);
      AddNames(roster, bucket, list[..j + 1]) == AddName(p.0, p.1, list[j])
  {
    assert list[..j + 1][..j] == list[..j];
  }

  lemma AddEntriesSnoc(t: Tally, es: OMap<PresentValue>, w: Window, k: int)
    requires Good(t, w) && 0 <= k < |es|
    ensures AddEntries(t, es[..k + 1], w) == AddEntry(AddEntries(t, es[..k], w), es[k], w)
  {
    assert es[..k + 1][..k] == es[..k];
  }

  lemma AddRowsSnoc(t: Tally, rows: seq<AttRow>, w: Window, i: int)
    requires Good(t, w) && 0 <= i < |rows|
    ensures AddRows(t, rows[..i + 1], w) == AddEntries(AddRows(t, rows[..i], w), Present(rows[i]), w)
  {
    assert rows[..i + 1][..i] == rows[..i];
  }

  /** `for (const a of baseAttendees) { const c = canonical(a); if (c && !map.has(c)) map.set(c, a); }` */
  method AddBaseAll(roster: OMap<string>, ghost before: seq<string>, pieces: seq<string>) returns (out: OMap<string>)
    requires roster == RosterOf(before)
    ensures out == RosterOf(before + pieces)
  {
    out := roster;
    var j := 0;
    ghost var names := before;
    assert before + pieces[..0] == before;
    while j < |pieces|
      invariant 0 <= j <= |pieces|
      invariant names == before + pieces[..j]
      invariant out == RosterOf(names)
    {
      var a := pieces[j];
      RosterOfSnoc(names, a);
      SnocSlice(before, pieces, j);
      out := AddOne(out, a);
      names := names + [a];
      j := j + 1;
    }
    assert pieces[..j] == pieces;
  }

  /** One piece of the first pass: its key, when not empty and new, is added under it. */
  method AddOne(roster: OMap<string>, a: string) returns (out: OMap<string>)
    requires RosterCanonical(roster)
    ensures out == AddBase(roster, a)
  {
    out := roster;
    var c := Canonical(a);
    if c != "" && !Has(roster, c) {
      out := Put(roster, c, a);
    }
  }

  /** The first pass over the rows. */
  method BuildRoster(rows: seq<AttRow>) returns (roster: OMap<string>)
    ensures roster == RosterOf(AllBase(rows))
  {
    roster := [];
    var i := 0;
    while i < |rows|
      invariant 0 <= i <= |rows|
      invariant roster == RosterOf(AllBase(rows[..i]))
    {
      assert rows[..i + 1][..i] == rows[..i] && rows[..i + 1][i] == rows[i];
      var a := rows[i].attendees;
      var base := if a.None? || a.value == "" then [] else NonEmpty(TrimAll(Split(a.value, ',')));
      roster := AddBaseAll(roster, AllBase(rows[..i]), base);
      i := i + 1;
    }
    assert rows[..i] == rows;
  }

  /**
   * One present name: its email local part's key, then its own key, find a
   * roster entry; otherwise a non-empty key enters bucket and roster alike.
   */
  method FileName(roster: OMap<string>, bucket: OMap<string>, p0: Option<string>)
    returns (roster': OMap<string>, bucket': OMap<string>)
    requires RosterCanonical(roster) && BucketAgrees(bucket, roster)
    ensures (roster', bucket') == AddName(roster, bucket, p0)
  {
    roster', bucket' := roster, bucket;
    var p := Norm(p0);
    if p == "" {
      return;
    }
    var local := EmailLocal(p);
    var c1 := Canonical(p);
    var c2 := Canonical(local);
    if Has(roster, c2) {
      bucket' := Put(bucket, c2, Get(roster, c2).value);
    } else if Has(roster, c1) {
      bucket' := Put(bucket, c1, Get(roster, c1).value);
    } else {
      var fallback := Canonical(p);
      if fallback != "" {
        if !Has(bucket, fallback) {
          bucket' := Put(bucket, fallback, p);
        }
        if !Has(roster, fallback) {
          roster' := Put(roster, fallback, p);
        }
      }
    }
  }

  /** `for (const p0 of list) { ... }`: each present name into the roster and the date's bucket. */
  method FileNames(roster: OMap<string>, bucket: OMap<string>, list: seq<Option<string>>)
    returns (roster': OMap<string>, bucket': OMap<string>)
    requires RosterCanonical(roster) && BucketAgrees(bucket, roster)
    ensures (roster', bucket') == AddNames(roster, bucket, list)
  {
    roster', bucket' := roster, bucket;
    var j := 0;
    assert list[..0] == [];
    while j < |list|
      invariant 0 <= j <= |list|
      invariant (roster', bucket') == AddNames(roster, bucket, list[..j])
    {
      AddNamesSnoc(roster, bucket, list, j);
      roster', bucket' := FileName(roster', bucket', list[j]);
      j := j + 1;
    }
    assert list[..j] == list;
  }

  /** `const [y, mm, dd] = key.split('-').map(Number); new Date(y, mm - 1, dd)` on a normalised key. */
  method DateOfKey(key: string, ghost d: Ymd) returns (dt: Option<int>)
    requires key == ToKey(d.y, d.m, d.d)
    ensures dt == KeyDate(d)
  {
    var parts := Split(key, '-');
    KeyNumbers(key, parts, d);
    var y: int, mm: int, dd: int := DecimalValue(parts[0]), DecimalValue(parts[1]), DecimalValue(parts[2]);
    assert y == d.y && mm - 1 == d.m - 1 && dd == d.d;
    dt := NewDate(y, mm - 1, dd);
  }

  /** A normalised key splits on dashes into the three numbers it was printed from. */
  lemma KeyNumbers(key: string, parts: seq<string>, d: Ymd)
    requires key == ToKey(d.y, d.m, d.d) && parts == Split(key, '-')
    ensures |parts| == 3 && AllDigits(parts[0]) && AllDigits(parts[1]) && AllDigits(parts[2])
    ensures DecimalValue(parts[0]) == d.y && DecimalValue(parts[1]) == d.m && DecimalValue(parts[2]) == d.d
  {
    KeySplitRoundTrip(d.y, d.m, d.d);
  }

  /** `if (!dateMap.has(key)) dateMap.set(key, new Map())`, then the list's names into that bucket. */
  method FileInto(roster: OMap<string>, dates: OMap<OMap<string>>, key: string, list: seq<Option<string>>, w: Window)
    returns (roster': OMap<string>, dates': OMap<OMap<string>>)
    requires Good(Tally(roster, dates), w) && KeptKey(key, w)
    ensures Tally(roster', dates') == FileUnder(Tally(roster, dates), key, list, w)
  {
    dates' := dates;
    if !Has(dates, key) {
      dates' := Put(dates, key, []);
    }
    assert dates' == EnsureBucket(Tally(roster, dates), key, w);
    var bucket := Get(dates', key).value;
    roster', bucket := FileNames(roster, bucket, list);
    dates' := Put(dates', key, bucket);
  }

  /**
   * One `[rawDate, presentRaw]`: the key is normalised, split back into
   * numbers and turned into a date; a date inside the window gets a bucket
   * and the names present on it.
   */
  method FillDate(roster: OMap<string>, dates: OMap<OMap<string>>, e: (string, PresentValue), w: Window)
    returns (roster': OMap<string>, dates': OMap<OMap<string>>)
    requires Good(Tally(roster, dates), w)
    ensures Tally(roster', dates') == AddEntry(Tally(roster, dates), e, w)
  {
    roster', dates' := roster, dates;
    var (rawDate, presentRaw) := e;
    var key := NormalizeDateKey(rawDate);
    if key.None? {
      assert KeepKey(rawDate, w).None?;
      return;
    }
    ghost var d := ParseYmd(rawDate).value;
    assert key.value == ToKey(d.y, d.m, d.d);
    var dt := DateOfKey(key.value, d);
    if !InWindow(dt, w) {
      assert KeepKey(rawDate, w).None?;
      return;
    }
    assert KeepKey(rawDate, w).Some?;
    KeepKeyKept(rawDate, w);
    roster', dates' := FileInto(roster, dates, key.value, presentRaw.GetOr([]), w);
  }

  /** `for (const [rawDate, presentRaw] of Object.entries(presentByDate))`. */
  method FillDates(roster: OMap<string>, dates: OMap<OMap<string>>, es: OMap<PresentValue>, w: Window)
    returns (roster': OMap<string>, dates': OMap<OMap<string>>)
    requires Good(Tally(roster, dates), w)
    ensures Tally(roster', dates') == AddEntries(Tally(roster, dates), es, w)
  {
    roster', dates' := roster, dates;
    var k := 0;
    while k < |es|
      invariant 0 <= k <= |es|
      invariant Tally(roster', dates') == AddEntries(Tally(roster, dates), es[..k], w)
    {
      AddEntriesSnoc(Tally(roster, dates), es, w, k);
      roster', dates' := FillDate(roster', dates', es[k], w);
      k := k + 1;
    }
    assert es[..k] == es;
  }

  /** `for (const k of sortedDates) dates[k] = Array.from(dateMap.get(k).values()).sort(...)`. */
  method OutputDates(keys: seq<string>, dates: OMap<OMap<string>>, le: (string, string) -> bool)
    returns (out: seq<(string, seq<string>)>)
    ensures out == DatesOut(keys, dates, le)
  {
    out := [];
    var i := 0;
    while i < |keys|
      invariant 0 <= i <= |keys|
      invariant out == DatesOut(keys[..i], dates, le)
    {
      var nameMap := Get(dates, keys[i]).GetOr([]);
      out := out + [(keys[i], SortBy(Values(nameMap), le))];
      i := i + 1;
    }
    assert keys[..i] == keys;
  }

  /**
   * `GET /attendance-summary?meetingName=&month=`: 400 unless both are given
   * and the month reads `dddd-dd`; 500 when the query fails; otherwise the
   * summary of the rows named `meetingName` for that month.
   */
  method Summarize(table: seq<AttRow>, meetingName: Option<string>, month: Option<string>,
                   le: (string, string) -> bool, queryFails: bool)
    returns (st: Status, out: Option<Summary>)
    ensures !(Truthy(meetingName) && Truthy(month) && MonthFormat(month.value)) <==> st == BadRequest
    ensures st != Ok ==> out.None?
    ensures st != BadRequest ==> (st == ServerError <==> queryFails)
    ensures st == Ok ==> out == Some(SummaryOf(RowsNamed(table, meetingName.value),
      MonthWindow(DecimalValue(month.value[..4]), DecimalValue(month.value[5..])), le))
  {
    if !(Truthy(meetingName) && Truthy(month) && MonthFormat(month.value)) {
      return BadRequest, None;
    }
    MonthSplit(month.value);
    var parts := Split(month.value, '-');
    var year: int, mon: int := DecimalValue(parts[0]), DecimalValue(parts[1]);
    var w := Window(NewDate(year, mon - 1, 1), NewDate(year, mon, 0));
    if queryFails {
      return ServerError, None;
    }
    var rows := RowsNamed(table, meetingName.value);

    var roster := BuildRoster(rows);
    var dates: OMap<OMap<string>> := [];
    assert Good(Tally(roster, dates), w);
    var i := 0;
    while i < |rows|
      invariant 0 <= i <= |rows|
      invariant Tally(roster, dates) == AddRows(Tally(RosterOf(AllBase(rows)), []), rows[..i], w)
    {
      AddRowsSnoc(Tally(RosterOf(AllBase(rows)), []), rows, w, i);
      roster, dates := FillDates(roster, dates, Present(rows[i]), w);
      i := i + 1;
    }
    assert rows[..i] == rows;

    var attendees := SortBy(Values(roster), le);
    var sortedDates := SortBy(Keys(dates), StrLe);
    var byDate := OutputDates(sortedDates, dates, le);
    st, out := Ok, Some(Summary(attendees, byDate));
  }
}
