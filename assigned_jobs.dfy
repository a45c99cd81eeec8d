/**
 * The dashboard's "assigned jobs" panel: the index from (meeting, job,
 * deadline) to the severity of that group of MoM rows, and the ordering of
 * the current user's jobs into open jobs by time left, then overdue jobs,
 * then finished jobs by deadline.
 */
module AssignedJobs {
  import opened Common
  import opened Seqs
  import opened Grouping

  // ---------------------------------------------------------------- the group index

  /** A meeting as the index reads it: its id (`meeting_id ?? id`, as text) and its MoM rows. */
  datatype MeetingMoms = MeetingMoms(id: string, mom: seq<MomRow>)

  /** The index key: the meeting id and the normalised (job, deadline). */
  type IndexKey = (string, seq<string>)

  /** The index entries one meeting contributes: one per group of its rows, in group order. */
  function EntriesOf(m: MeetingMoms): (es: seq<(IndexKey, Severity)>)
    ensures |es| == |FirstKeys(m.mom, PlainKey)|
    ensures forall i :: 0 <= i < |es| ==>
      es[i] == ((m.id, FirstKeys(m.mom, PlainKey)[i]),
        GroupSeverity(RowsWithKey(m.mom, PlainKey, FirstKeys(m.mom, PlainKey)[i])))
  {
    var ks := FirstKeys(m.mom, PlainKey);
    seq(|ks|, i requires 0 <= i < |ks| => ((m.id, ks[i]), GroupSeverity(RowsWithKey(m.mom, PlainKey, ks[i]))))
  }

  /** `idx[key] = severity` for each entry in turn. */
  function PutAll(idx: map<IndexKey, Severity>, es: seq<(IndexKey, Severity)>): (r: map<IndexKey, Severity>)
    ensures forall k :: k in r <==> k in idx || exists i :: 0 <= i < |es| && es[i].0 == k
    decreases |es|
  {
    if es == [] then idx else PutAll(idx[es[0].0 := es[0].1], es[1..])
  }

  /** `groupIndex`: every meeting's entries, a later meeting overwriting an earlier one with the same key. */
  function GroupIndex(ms: seq<MeetingMoms>): (idx: map<IndexKey, Severity>)
    ensures forall k :: k in idx ==> exists i :: 0 <= i < |ms| && ms[i].id == k.0
  {
    if ms == [] then map[]
    else
      var prev := GroupIndex(ms[..|ms| - 1]);
      var es := EntriesOf(ms[|ms| - 1]);
      assert forall i :: 0 <= i < |ms| - 1 ==> ms[..|ms| - 1][i] == ms[i];
      PutAll(prev, es)
  }

  /** Entries whose keys are all different from `k` leave `k` as it was. */
  lemma {:induction false} PutAllOther(idx: map<IndexKey, Severity>, es: seq<(IndexKey, Severity)>, k: IndexKey)
    requires forall i :: 0 <= i < |es| ==> es[i].0 != k
    ensures (k in PutAll(idx, es)) == (k in idx)
    ensures k in idx ==> PutAll(idx, es)[k] == idx[k]
    decreases |es|
  {
    if es != [] {
      PutAllOther(idx[es[0].0 := es[0].1], es[1..], k);
    }
  }

  /** With distinct keys, each entry's value is what ends up under its key. */
  lemma {:induction false} PutAllHas(idx: map<IndexKey, Severity>, es: seq<(IndexKey, Severity)>, j: int)
    requires 0 <= j < |es|
    requires forall a, b :: 0 <= a < b < |es| ==> es[a].0 != es[b].0
    ensures es[j].0 in PutAll(idx, es) && PutAll(idx, es)[es[j].0] == es[j].1
    decreases |es|
  {
    if j == 0 {
      PutAllOther(idx[es[0].0 := es[0].1], es[1..], es[0].0);
    } else {
      PutAllHas(idx[es[0].0 := es[0].1], es[1..], j - 1);
    }
  }

  /**
   * Looking up a row's (meeting, job, deadline) finds the severity of the
   * group of rows it belongs to, unless a later meeting reuses the id.
   */
  lemma {:induction false} IndexedSeverity(ms: seq<MeetingMoms>, i: int, r: MomRow)
    requires 0 <= i < |ms| && r in ms[i].mom
    requires forall j :: i < j < |ms| ==> ms[j].id != ms[i].id
    ensures (ms[i].id, PlainKey(r)) in GroupIndex(ms)
    ensures GroupIndex(ms)[(ms[i].id, PlainKey(r))] == GroupSeverity(RowsWithKey(ms[i].mom, PlainKey, PlainKey(r)))
  {
    var init := ms[..|ms| - 1];
    if i == |ms| - 1 {
      PutEntriesHas(GroupIndex(init), ms[i], r);
    } else {
      assert forall j :: i < j < |init| ==> init[j] == ms[j];
      IndexedSeverity(init, i, r);
      PutEntriesOther(GroupIndex(init), ms[|ms| - 1], (ms[i].id, PlainKey(r)));
    }
  }

  /** Writing a meeting's entries files each of its rows' groups under the row's key. */
  lemma PutEntriesHas(idx: map<IndexKey, Severity>, m: MeetingMoms, r: MomRow)
    requires r in m.mom
    ensures (m.id, PlainKey(r)) in PutAll(idx, EntriesOf(m))
    ensures PutAll(idx, EntriesOf(m))[(m.id, PlainKey(r))] == GroupSeverity(RowsWithKey(m.mom, PlainKey, PlainKey(r)))
  {
    var es := EntriesOf(m);
    var ks := FirstKeys(m.mom, PlainKey);
    assert PlainKey(r) in ks;
    var q :| 0 <= q < |ks| && ks[q] == PlainKey(r);
    assert es[q].0 == (m.id, PlainKey(r));
    PutAllHas(idx, es, q);
  }

  /** Writing a meeting's entries leaves the keys of other meetings alone. */
  lemma PutEntriesOther(idx: map<IndexKey, Severity>, m: MeetingMoms, k: IndexKey)
    requires k.0 != m.id
    ensures (k in PutAll(idx, EntriesOf(m))) == (k in idx)
    ensures k in idx ==> PutAll(idx, EntriesOf(m))[k] == idx[k]
  {
    PutAllOther(idx, EntriesOf(m), k);
  }

  /** The i-th summary `groupMomRows` returns is the i-th index entry of its meeting. */
  lemma GroupEntry(m: MeetingMoms, groups: seq<Summary>, i: int)
    requires Grouped(groups, m.mom, PlainKey, false)
    requires 0 <= i < |groups|
    ensures i < |EntriesOf(m)|
    ensures EntriesOf(m)[i] == ((m.id, [Normalize(groups[i].job), Normalize(groups[i].deadline)]), groups[i].severity)
  {
    var ks := FirstKeys(m.mom, PlainKey);
    var g := groups[i];
    assert g.members[0] in RowsWithKey(m.mom, PlainKey, ks[i]);
    assert PlainKey(g.members[0]) == ks[i];
  }

  /** One meeting's groups written into the index. */
  method PutGroups(idx: map<IndexKey, Severity>, m: MeetingMoms) returns (idx': map<IndexKey, Severity>)
    ensures idx' == PutAll(idx, EntriesOf(m))
  {
    var groups := GroupMomRows(m.mom);
    ghost var es := EntriesOf(m);
    idx' := idx;
    var i := 0;
    while i < |groups|
      invariant i <= |groups| == |es|
      invariant PutAll(idx', es[i..]) == PutAll(idx, es)
    {
      var g := groups[i];
      var key := (m.id, [Normalize(g.job), Normalize(g.deadline)]);
      GroupEntry(m, groups, i);
      assert es[i..][1..] == es[i + 1..];
      idx' := idx'[key := g.severity];
      i := i + 1;
    }
  }

  /** The `useMemo` building `groupIndex`: for each meeting, for each of its groups, `idx[key] = g.severity`. */
  method BuildGroupIndex(ms: seq<MeetingMoms>) returns (idx: map<IndexKey, Severity>)
    ensures idx == GroupIndex(ms)
  {
    idx := map[];
    var n := 0;
    while n < |ms|
      invariant n <= |ms|
      invariant idx == GroupIndex(ms[..n])
    {
      PrefixSnoc(ms, n);
      assert ms[..n + 1][..n] == ms[..n];
      idx := PutGroups(idx, ms[n]);
      n := n + 1;
    }
    assert ms[..n] == ms;
  }

  // ---------------------------------------------------------------- the panel

  /** One of the user's MoM rows with the id of its meeting. */
  datatype Job = Job(meetingId: string, row: MomRow)

  /** `groupIndex[key] || 'default'`. */
  function Overall(idx: map<IndexKey, Severity>, j: Job): (o: Severity)
    ensures o == Default || o in idx.Values
  {
    var k := (j.meetingId, PlainKey(j.row));
    if k in idx then idx[k] else Default
  }

  /** The index key as written: `${meetingId}|${normalize(job)}|${normalize(deadline)}`. */
  function IndexKeyAsWritten(id: string, r: MomRow): string {
    JoinedKey([id] + PlainKey(r))
  }

  /** `groupIndex[key] || 'default'` with the key as written. */
  function OverallAsWritten(idx: map<string, Severity>, j: Job): Severity {
    var k := IndexKeyAsWritten(j.meetingId, j.row);
    if k in idx then idx[k] else Default
  }

  lemma JoinedCons(id: string, parts: seq<string>)
    requires parts != []
    ensures JoinedKey([id] + parts) == id + "|" + JoinedKey(parts)
  {
    assert ([id] + parts)[1..] == parts;
  }

  /**
   * Job `a|b` due `c` and job `a` due `b|c` of one meeting: the index keeps
   * them apart by (id, job, deadline), but as written both have one key, so
   * whatever the index holds, the two jobs read one overall severity.
   */
  lemma IndexKeyAsWrittenCollides(id: string, r1: MomRow, r2: MomRow, a: string, b: string, c: string)
    requires Letters(a) && Letters(b) && Letters(c)
    requires r1 == MomRow(None, None, Some(a + "|" + b), Some(c), None)
    requires r2 == MomRow(None, None, Some(a), Some(b + "|" + c), None)
    ensures (id, PlainKey(r1)) != (id, PlainKey(r2))
    ensures IndexKeyAsWritten(id, r1) == IndexKeyAsWritten(id, r2)
    ensures forall idx :: OverallAsWritten(idx, Job(id, r1)) == OverallAsWritten(idx, Job(id, r2))
  {
    PlainRowsCollide(r1, r2, a, b, c);
    assert PlainKey(r1)[0] != PlainKey(r2)[0];
    JoinedCons(id, PlainKey(r1));
    JoinedCons(id, PlainKey(r2));
  }

  /** `_isDone`: the job's group is completed or rejected. */
  predicate Done(idx: map<IndexKey, Severity>, j: Job) {
    var o := Overall(idx, j);
    o == Completed || o == Rejected
  }

  /**
   * `_timeLeftMs`: the parsed deadline minus now, `None` standing for
   * `Infinity` when the deadline does not parse. `endOf` is `parseDateLoose`
   * in milliseconds.
   */
  function TimeLeft(j: Job, now: int, endOf: Option<string> -> Option<int>): Option<int> {
    match endOf(j.row.deadline)
    case Some(e) => Some(e - now)
    case None => None
  }

  /** `_isExpiredTime`: the deadline parses and is not in the future. */
  predicate Expired(j: Job, now: int, endOf: Option<string> -> Option<int>) {
    TimeLeft(j, now, endOf).Some? && TimeLeft(j, now, endOf).value <= 0
  }

  /** Order on time left, infinity last; `Infinity - Infinity` is `NaN`, which the sort reads as a tie. */
  predicate TimeLe(a: Option<int>, b: Option<int>) {
    b.None? || (a.Some? && a.value <= b.value)
  }

  /** The comparator of the open jobs: ascending or descending time left. */
  function ByTimeLeft(asc: bool, now: int, endOf: Option<string> -> Option<int>): (Job, Job) -> bool {
    (a: Job, b: Job) =>
      if asc then TimeLe(TimeLeft(a, now, endOf), TimeLeft(b, now, endOf))
      else TimeLe(TimeLeft(b, now, endOf), TimeLeft(a, now, endOf))
  }

  /**
   * The comparator of the finished jobs, `new Date(b.deadline) - new Date(a.deadline)`:
   * later deadlines first, and a tie whenever a deadline is an invalid date.
   * `dateOf` is `new Date(...)` in milliseconds, `None` for an invalid date.
   */
  function ByDeadlineDesc(dateOf: Option<string> -> Option<int>): (Job, Job) -> bool {
    (a: Job, b: Job) =>
      var da := dateOf(a.row.deadline);
      var db := dateOf(b.row.deadline);
      da.None? || db.None? || db.value <= da.value
  }

  function Active(jobs: seq<Job>, idx: map<IndexKey, Severity>): seq<Job> {
    Filter(jobs, (j: Job) => !Done(idx, j))
  }

  function ActiveValid(jobs: seq<Job>, idx: map<IndexKey, Severity>, now: int, endOf: Option<string> -> Option<int>): seq<Job> {
    Filter(Active(jobs, idx), (j: Job) => !Expired(j, now, endOf))
  }

  function ActiveExpired(jobs: seq<Job>, idx: map<IndexKey, Severity>, now: int, endOf: Option<string> -> Option<int>): seq<Job> {
    Filter(Active(jobs, idx), (j: Job) => Expired(j, now, endOf))
  }

  /** `activeFinal`: open jobs by time left, then the overdue ones in input order unless hidden. */
  function ActiveFinal(jobs: seq<Job>, idx: map<IndexKey, Severity>, now: int,
    endOf: Option<string> -> Option<int>, sortAsc: bool, hideExpired: bool): seq<Job>
  {
    var sorted := SortBy(ActiveValid(jobs, idx, now, endOf), ByTimeLeft(sortAsc, now, endOf));
    if hideExpired then sorted else sorted + ActiveExpired(jobs, idx, now, endOf)
  }

  function DoneJobs(jobs: seq<Job>, idx: map<IndexKey, Severity>): seq<Job> {
    Filter(jobs, (j: Job) => Done(idx, j))
  }

  /** `sortedDone`. */
  function SortedDone(jobs: seq<Job>, idx: map<IndexKey, Severity>, dateOf: Option<string> -> Option<int>): seq<Job> {
    SortBy(DoneJobs(jobs, idx), ByDeadlineDesc(dateOf))
  }

  /** The cards in the order the panel renders them: `activeFinal`, then `sortedDone`. */
  function Board(jobs: seq<Job>, idx: map<IndexKey, Severity>, now: int, endOf: Option<string> -> Option<int>,
    dateOf: Option<string> -> Option<int>, sortAsc: bool, hideExpired: bool): (b: seq<Job>)
    ensures forall x :: x in b ==> x in jobs
  {
    ActiveFinalMembers(jobs, idx, now, endOf, sortAsc, hideExpired);
    SortedDoneMembers(jobs, idx, dateOf);
    ActiveFinal(jobs, idx, now, endOf, sortAsc, hideExpired) + SortedDone(jobs, idx, dateOf)
  }

  /** Time left is a total preorder either way round, so the open jobs sort consistently. */
  lemma ByTimeLeftPreorder(asc: bool, now: int, endOf: Option<string> -> Option<int>)
    ensures TotalPreorder(ByTimeLeft(asc, now, endOf))
  {
  }

  /**
   * The open part: non-overdue open jobs, each exactly as often as in the
   * input, sorted by time left; then, unless hidden, the overdue open jobs
   * in input order.
   */
  lemma ActiveFinalSorted(jobs: seq<Job>, idx: map<IndexKey, Severity>, now: int,
    endOf: Option<string> -> Option<int>, sortAsc: bool, hideExpired: bool)
    ensures var valid := ActiveValid(jobs, idx, now, endOf);
      var af := ActiveFinal(jobs, idx, now, endOf, sortAsc, hideExpired);
      |valid| <= |af| &&
      multiset(af[..|valid|]) == multiset(valid) &&
      Sorted(af[..|valid|], ByTimeLeft(sortAsc, now, endOf)) &&
      af[|valid|..] == (if hideExpired then [] else ActiveExpired(jobs, idx, now, endOf))
  {
    var valid := ActiveValid(jobs, idx, now, endOf);
    var sorted := SortBy(valid, ByTimeLeft(sortAsc, now, endOf));
    ByTimeLeftPreorder(sortAsc, now, endOf);
    SortBySorted(valid, ByTimeLeft(sortAsc, now, endOf));
    var af := ActiveFinal(jobs, idx, now, endOf, sortAsc, hideExpired);
    assert af[..|valid|] == sorted;
  }

  /** The open part holds every open job of the input, bar the overdue ones when they are hidden. */
  lemma ActiveFinalMembers(jobs: seq<Job>, idx: map<IndexKey, Severity>, now: int,
    endOf: Option<string> -> Option<int>, sortAsc: bool, hideExpired: bool)
    ensures forall j :: j in ActiveFinal(jobs, idx, now, endOf, sortAsc, hideExpired) <==>
      j in jobs && !Done(idx, j) && !(hideExpired && Expired(j, now, endOf))
  {
    var valid := ActiveValid(jobs, idx, now, endOf);
    var expired := ActiveExpired(jobs, idx, now, endOf);
    SortByMembers(valid, ByTimeLeft(sortAsc, now, endOf));
    ActiveParts(jobs, idx, now, endOf);
    var af := ActiveFinal(jobs, idx, now, endOf, sortAsc, hideExpired);
    if hideExpired {
      assert af == SortBy(valid, ByTimeLeft(sortAsc, now, endOf));
    } else {
      assert af == SortBy(valid, ByTimeLeft(sortAsc, now, endOf)) + expired;
    }
  }

  /** The open jobs split into those not overdue and those overdue. */
  lemma ActiveParts(jobs: seq<Job>, idx: map<IndexKey, Severity>, now: int, endOf: Option<string> -> Option<int>)
    ensures forall j :: j in ActiveValid(jobs, idx, now, endOf) <==> j in jobs && !Done(idx, j) && !Expired(j, now, endOf)
    ensures forall j :: j in ActiveExpired(jobs, idx, now, endOf) <==> j in jobs && !Done(idx, j) && Expired(j, now, endOf)
  {
    var active := Active(jobs, idx);
    assert forall j :: j in active <==> j in jobs && !Done(idx, j);
  }

  /** The finished part holds exactly the done jobs, each as often as in the input. */
  lemma SortedDoneMembers(jobs: seq<Job>, idx: map<IndexKey, Severity>, dateOf: Option<string> -> Option<int>)
    ensures multiset(SortedDone(jobs, idx, dateOf)) == multiset(DoneJobs(jobs, idx))
    ensures forall j :: j in SortedDone(jobs, idx, dateOf) <==> j in jobs && Done(idx, j)
  {
    SortByMembers(DoneJobs(jobs, idx), ByDeadlineDesc(dateOf));
  }

  /** Comparing by a number, larger first, is a total preorder. */
  lemma DescendingPreorder(f: Job -> int)
    ensures TotalPreorder((a: Job, b: Job) => f(b) <= f(a))
  {
  }

  /** Sorting jobs whose deadlines are all valid dates puts the latest deadline first. */
  lemma {:induction false} ByDeadlineSorts(done: seq<Job>, dateOf: Option<string> -> Option<int>)
    requires forall j :: j in done ==> dateOf(j.row.deadline).Some?
    ensures Sorted(SortBy(done, ByDeadlineDesc(dateOf)), ByDeadlineDesc(dateOf))
  {
    var f := (j: Job) => dateOf(j.row.deadline).GetOr(0);
    var total := (a: Job, b: Job) => f(b) <= f(a);
    DescendingPreorder(f);
    forall a, b | a in done && b in done
      ensures ByDeadlineDesc(dateOf)(a, b) == total(a, b)
    {
      assert dateOf(a.row.deadline).Some? && dateOf(b.row.deadline).Some?;
    }
    SortByAgree(done, ByDeadlineDesc(dateOf), total);
    SortBySorted(done, total);
    SortByMembers(done, total);
    var sd := SortBy(done, total);
    forall p, q | 0 <= p < q < |sd| ensures ByDeadlineDesc(dateOf)(sd[p], sd[q]) {
      assert sd[p] in done && sd[q] in done;
      assert total(sd[p], sd[q]);
    }
  }

  /** The finished part is latest deadline first when every finished job's deadline is a valid date. */
  lemma SortedDoneSorted(jobs: seq<Job>, idx: map<IndexKey, Severity>, dateOf: Option<string> -> Option<int>)
    requires forall j :: j in DoneJobs(jobs, idx) ==> dateOf(j.row.deadline).Some?
    ensures Sorted(SortedDone(jobs, idx, dateOf), ByDeadlineDesc(dateOf))
  {
    ByDeadlineSorts(DoneJobs(jobs, idx), dateOf);
  }

  /** Whatever lies in the second part of a concatenation comes after whatever lies in the first. */
  lemma ConcatSeparates(a: seq<Job>, b: seq<Job>, idx: map<IndexKey, Severity>)
    requires forall x :: x in a ==> !Done(idx, x)
    requires forall x :: x in b ==> Done(idx, x)
    ensures forall i, k :: 0 <= i < k < |a + b| && Done(idx, (a + b)[i]) ==> Done(idx, (a + b)[k])
  {
    forall i | 0 <= i < |a| ensures !Done(idx, (a + b)[i]) {
      assert (a + b)[i] == a[i];
    }
    forall k | |a| <= k < |a + b| ensures Done(idx, (a + b)[k]) {
      assert (a + b)[k] == b[k - |a|];
    }
  }

  /** The panel lists every open job before every finished job. */
  lemma BoardDoneLast(jobs: seq<Job>, idx: map<IndexKey, Severity>, now: int, endOf: Option<string> -> Option<int>,
    dateOf: Option<string> -> Option<int>, sortAsc: bool, hideExpired: bool)
    ensures forall p, q ::
      0 <= p < q < |Board(jobs, idx, now, endOf, dateOf, sortAsc, hideExpired)| &&
      Done(idx, Board(jobs, idx, now, endOf, dateOf, sortAsc, hideExpired)[p])
      ==> Done(idx, Board(jobs, idx, now, endOf, dateOf, sortAsc, hideExpired)[q])
  {
    var af := ActiveFinal(jobs, idx, now, endOf, sortAsc, hideExpired);
    var sd := SortedDone(jobs, idx, dateOf);
    assert forall x :: x in af ==> !Done(idx, x) by {
      ActiveFinalMembers(jobs, idx, now, endOf, sortAsc, hideExpired);
    }
    assert forall x :: x in sd ==> Done(idx, x) by {
      SortedDoneMembers(jobs, idx, dateOf);
    }
    ConcatSeparates(af, sd, idx);
    assert Board(jobs, idx, now, endOf, dateOf, sortAsc, hideExpired) == af + sd;
  }

  /** Only hidden overdue open jobs are missing from the panel. */
  lemma BoardMembers(jobs: seq<Job>, idx: map<IndexKey, Severity>, now: int, endOf: Option<string> -> Option<int>,
    dateOf: Option<string> -> Option<int>, sortAsc: bool, hideExpired: bool)
    ensures forall j :: j in Board(jobs, idx, now, endOf, dateOf, sortAsc, hideExpired) <==>
      j in jobs && !(!Done(idx, j) && hideExpired && Expired(j, now, endOf))
  {
    ActiveFinalMembers(jobs, idx, now, endOf, sortAsc, hideExpired);
    SortedDoneMembers(jobs, idx, dateOf);
  }
}
