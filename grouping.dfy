/**
 * The dashboard's grouping of minutes-of-meeting rows: the normalisation of
 * free text, the severity of a group of rows, the grouping of rows by
 * normalised (job, deadline) or (meeting, job, deadline), and the choice of
 * the row a group shows first.
 */
module Grouping {
  import opened Common
  import opened Text
  import opened Seqs

  /** A MoM row as the dashboard holds it: the fields grouping reads, and the row's id. */
  datatype MomRow = MomRow(
    momId: Option<nat>,
    from: Option<string>,
    job: Option<string>,
    deadline: Option<string>,
    status: Option<string>)

  /** `(s ?? '').toString().trim().toLowerCase()` on a text field. */
  function Normalize(s: Option<string>): (r: string)
    ensures |r| <= |s.GetOr("")|
    ensures Lower(r) == r
  {
    LowerIdempotent(Trim(s.GetOr("")));
    Lower(Trim(s.GetOr("")))
  }

  /** Lower-casing keeps the ends of a trimmed string free of spaces. */
  lemma LowerKeepsTrimmed(s: string)
    requires IsTrimmed(s)
    ensures IsTrimmed(Lower(s))
  {
  }

  /** Normalising a normalised value changes nothing. */
  lemma NormalizeIdempotent(s: Option<string>)
    ensures Normalize(Some(Normalize(s))) == Normalize(s)
  {
    var t := Trim(s.GetOr(""));
    LowerKeepsTrimmed(t);
    TrimOfTrimmed(Lower(t));
    LowerIdempotent(t);
  }

  // ---------------------------------------------------------------- severity

  /** The overall state of a group, as the dashboard colours it. */
  datatype Severity = Completed | Rejected | NeedTime | Reassigned | Default

  /** Every normalised status of `ms` is `t`. */
  predicate AllStatus(ms: seq<MomRow>, t: string) {
    forall i :: 0 <= i < |ms| ==> Normalize(ms[i].status) == t
  }

  /** Some normalised status of `ms` is `t`. */
  predicate AnyStatus(ms: seq<MomRow>, t: string) {
    exists i :: 0 <= i < |ms| && Normalize(ms[i].status) == t
  }

  /**
   * `groupSeverity`: completed only when there are members and all are
   * completed; otherwise the first of rejected, need time, reassigned that
   * some member has; otherwise the default.
   */
  function GroupSeverity(ms: seq<MomRow>): (r: Severity)
    ensures ms == [] ==> r == Default
    ensures r == Completed ==> ms != []
  {
    if |ms| > 0 && AllStatus(ms, "completed") then Completed
    else if AnyStatus(ms, "rejected") then Rejected
    else if AnyStatus(ms, "need time") then NeedTime
    else if AnyStatus(ms, "reassigned") then Reassigned
    else Default
  }

  /** Precedence of severities: a group is as severe as its most severe member. */
  function Rank(s: Severity): nat {
    match s
    case Completed => 0
    case Default => 1
    case Reassigned => 2
    case NeedTime => 3
    case Rejected => 4
  }

  /** The severity one normalised status contributes on its own. */
  function TextSeverity(t: string): Severity {
    if t == "completed" then Completed
    else if t == "rejected" then Rejected
    else if t == "need time" then NeedTime
    else if t == "reassigned" then Reassigned
    else Default
  }

  /** Each of the four status texts, and only it, gives its severity. */
  lemma TextSeverityMeaning(t: string)
    ensures TextSeverity(t) == Completed <==> t == "completed"
    ensures TextSeverity(t) == Rejected <==> t == "rejected"
    ensures TextSeverity(t) == NeedTime <==> t == "need time"
    ensures TextSeverity(t) == Reassigned <==> t == "reassigned"
  {
  }

  function StatusSeverity(status: Option<string>): Severity {
    TextSeverity(Normalize(status))
  }

  function Worse(a: Severity, b: Severity): Severity {
    if Rank(a) >= Rank(b) then a else b
  }

  /** The severity each member's status gives, in member order. */
  function Sevs(ms: seq<MomRow>): (ss: seq<Severity>)
    ensures |ss| == |ms|
    ensures forall i :: 0 <= i < |ms| ==> ss[i] == StatusSeverity(ms[i].status)
  {
    seq(|ms|, i requires 0 <= i < |ms| => StatusSeverity(ms[i].status))
  }

  /** The most severe of some severities; `Completed`, the least severe, for none. */
  function MaxSev(ss: seq<Severity>): (r: Severity)
    ensures forall i :: 0 <= i < |ss| ==> Rank(ss[i]) <= Rank(r)
    ensures r == Completed || r in ss
  {
    if ss == [] then Completed
    else
      var w := MaxSev(ss[..|ss| - 1]);
      assert forall i :: 0 <= i < |ss| - 1 ==> ss[..|ss| - 1][i] == ss[i];
      Worse(w, ss[|ss| - 1])
  }

  /** The most severe member status. */
  function Worst(ms: seq<MomRow>): Severity {
    MaxSev(Sevs(ms))
  }

  /** A severity that is present and that none exceeds is the maximum. */
  lemma MaxSevIs(ss: seq<Severity>, s: Severity, i: int)
    requires 0 <= i < |ss| && ss[i] == s
    requires forall j :: 0 <= j < |ss| ==> Rank(ss[j]) <= Rank(s)
    ensures MaxSev(ss) == s
  {
    var w := MaxSev(ss);
    if w != Completed {
      var j :| 0 <= j < |ss| && ss[j] == w;
    }
  }

  /** A severity some member reaches and none exceeds is the most severe one. */
  lemma WorstIs(ms: seq<MomRow>, s: Severity, i: int)
    requires 0 <= i < |ms| && StatusSeverity(ms[i].status) == s
    requires forall j :: 0 <= j < |ms| ==> Rank(StatusSeverity(ms[j].status)) <= Rank(s)
    ensures Worst(ms) == s
  {
    MaxSevIs(Sevs(ms), s, i);
  }

  /** Below a status no member has, every member ranks under that status's rank. */
  lemma RankBelow(ms: seq<MomRow>, r: nat)
    requires 1 <= r <= 4
    requires r <= 3 ==> !AnyStatus(ms, "rejected")
    requires r <= 2 ==> !AnyStatus(ms, "need time")
    requires r <= 1 ==> !AnyStatus(ms, "reassigned")
    ensures forall j :: 0 <= j < |ms| ==> Rank(StatusSeverity(ms[j].status)) <= r
  {
    forall j | 0 <= j < |ms| ensures Rank(StatusSeverity(ms[j].status)) <= r {
      var t := Normalize(ms[j].status);
      TextSeverityMeaning(t);
      assert r <= 3 ==> t != "rejected";
      assert r <= 2 ==> t != "need time";
      assert r <= 1 ==> t != "reassigned";
    }
  }

  /**
   * The precedence chain is a maximum: a non-empty group's severity is that
   * of its most severe member, with completed below every other status.
   */
  lemma SeverityIsWorst(ms: seq<MomRow>)
    ensures GroupSeverity(ms) == if ms == [] then Default else Worst(ms)
  {
    if ms != [] {
      if AllStatus(ms, "completed") {
        AllCompletedWorst(ms);
      } else if AnyStatus(ms, "rejected") {
        RejectedWorst(ms);
      } else if AnyStatus(ms, "need time") {
        NeedTimeWorst(ms);
      } else if AnyStatus(ms, "reassigned") {
        ReassignedWorst(ms);
      } else {
        DefaultWorst(ms);
      }
    }
  }

  lemma RejectedWorst(ms: seq<MomRow>)
    requires !AllStatus(ms, "completed") && AnyStatus(ms, "rejected")
    ensures GroupSeverity(ms) == Rejected && Worst(ms) == Rejected
  {
    RankBelow(ms, 4);
    StatusWorst(ms, "rejected", Rejected);
  }

  lemma NeedTimeWorst(ms: seq<MomRow>)
    requires !AllStatus(ms, "completed") && !AnyStatus(ms, "rejected") && AnyStatus(ms, "need time")
    ensures GroupSeverity(ms) == NeedTime && Worst(ms) == NeedTime
  {
    RankBelow(ms, 3);
    NeedTimeText();
    StatusWorst(ms, "need time", NeedTime);
  }

  lemma NeedTimeText()
    ensures TextSeverity("need time") == NeedTime
  {
    assert "need time" != "completed" by {
      assert "need time"[0] == 'n' && "completed"[0] == 'c';
    }
  }

  lemma ReassignedWorst(ms: seq<MomRow>)
    requires !AllStatus(ms, "completed") && !AnyStatus(ms, "rejected") && !AnyStatus(ms, "need time")
    requires AnyStatus(ms, "reassigned")
    ensures GroupSeverity(ms) == Reassigned && Worst(ms) == Reassigned
  {
    RankBelow(ms, 2);
    StatusWorst(ms, "reassigned", Reassigned);
  }

  lemma DefaultWorst(ms: seq<MomRow>)
    requires ms != [] && !AllStatus(ms, "completed") && !AnyStatus(ms, "rejected") && !AnyStatus(ms, "need time")
    requires !AnyStatus(ms, "reassigned")
    ensures GroupSeverity(ms) == Default && Worst(ms) == Default
  {
    var i :| 0 <= i < |ms| && Normalize(ms[i].status) != "completed";
    TextSeverityMeaning(Normalize(ms[i].status));
    RankBelow(ms, 1);
    WorstIs(ms, Default, i);
  }

  lemma AllCompletedWorst(ms: seq<MomRow>)
    requires ms != [] && AllStatus(ms, "completed")
    ensures GroupSeverity(ms) == Completed && Worst(ms) == Completed
  {
    forall j | 0 <= j < |ms| ensures StatusSeverity(ms[j].status) == Completed {
      assert Normalize(ms[j].status) == "completed";
    }
    WorstIs(ms, Completed, 0);
  }

  /** A status some member has, which no member's status outranks, is the most severe one. */
  lemma StatusWorst(ms: seq<MomRow>, t: string, s: Severity)
    requires AnyStatus(ms, t) && TextSeverity(t) == s
    requires forall j :: 0 <= j < |ms| ==> Rank(StatusSeverity(ms[j].status)) <= Rank(s)
    ensures Worst(ms) == s
  {
    var i :| 0 <= i < |ms| && Normalize(ms[i].status) == t;
    WorstIs(ms, s, i);
  }

  /** The most severe status of two lists together is the worse of the two. */
  lemma WorstAppend(a: seq<MomRow>, b: seq<MomRow>)
    ensures Worst(a + b) == Worse(Worst(a), Worst(b))
  {
    assert Sevs(a + b) == Sevs(a) + Sevs(b);
    MaxSevAppend(Sevs(a), Sevs(b));
  }

  /** The maximum of two sequences together is the worse of their maxima. */
  lemma {:induction false} MaxSevAppend(x: seq<Severity>, y: seq<Severity>)
    ensures MaxSev(x + y) == Worse(MaxSev(x), MaxSev(y))
    decreases |y|
  {
    if y == [] {
      assert x + y == x;
    } else {
      var y' := y[..|y| - 1];
      assert (x + y)[..|x + y| - 1] == x + y';
      MaxSevAppend(x, y');
    }
  }

  /**
   * Merging two non-empty groups: the severity of the union is the worse of
   * the two severities, whatever the order of the members.
   */
  lemma SeverityOfUnion(a: seq<MomRow>, b: seq<MomRow>)
    requires a != [] && b != []
    ensures GroupSeverity(a + b) == Worse(GroupSeverity(a), GroupSeverity(b))
    ensures GroupSeverity(a + b) == GroupSeverity(b + a)
  {
    SeverityIsWorst(a);
    SeverityIsWorst(b);
    SeverityIsWorst(a + b);
    SeverityIsWorst(b + a);
    WorstAppend(a, b);
    WorstAppend(b, a);
  }

  // ---------------------------------------------------------------- primary

  /** The raw status, `m.status || ''`, matches `/^(completed|rejected)$/i`. */
  predicate Settled(m: MomRow)
    ensures Settled(m) ==> m.status.Some? && 8 <= |m.status.value| <= 9
  {
    var s := Lower(m.status.GetOr(""));
    s == "completed" || s == "rejected"
  }

  /** `members.findIndex(m => !settled(m))`. */
  function FirstOpen(ms: seq<MomRow>): (i: int)
    ensures -1 <= i < |ms|
    ensures i >= 0 ==> !Settled(ms[i]) && forall j :: 0 <= j < i ==> Settled(ms[j])
    ensures i == -1 ==> forall j :: 0 <= j < |ms| ==> Settled(ms[j])
  {
    if ms == [] then -1
    else if !Settled(ms[0]) then 0
    else
      var j := FirstOpen(ms[1..]);
      if j < 0 then -1 else j + 1
  }

  /** The row a group shows first: its first open member, failing that its first member. */
  function Primary(ms: seq<MomRow>): (p: MomRow)
    requires ms != []
    ensures p in ms
  {
    var i := FirstOpen(ms);
    if i >= 0 then ms[i] else ms[0]
  }

  /**
   * The row shown is open whenever any member is open, and no later than the
   * first open member; only a fully settled group shows its first member.
   */
  lemma PrimaryIsFirstOpen(ms: seq<MomRow>)
    requires ms != []
    ensures !Settled(Primary(ms)) || (Primary(ms) == ms[0] && forall m :: m in ms ==> Settled(m))
    ensures forall j :: 0 <= j < |ms| && !Settled(ms[j]) ==>
      !Settled(Primary(ms)) && exists k :: 0 <= k <= j && ms[k] == Primary(ms)
  {
    var i := FirstOpen(ms);
    if i >= 0 {
      forall j | 0 <= j < |ms| && !Settled(ms[j])
        ensures exists k :: 0 <= k <= j && ms[k] == Primary(ms)
      {
        assert i <= j && ms[i] == Primary(ms);
      }
    }
  }

  // ---------------------------------------------------------------- grouping

  /** One entry of the grouping `Map`: its key, the first row's fields, and the rows pushed so far. */
  datatype Group<K> = Group(
    key: K,
    from: Option<string>,
    job: Option<string>,
    deadline: Option<string>,
    members: seq<MomRow>)

  /** The key of every row, in input order. */
  function KeysOf<K>(rows: seq<MomRow>, key: MomRow -> K): (ks: seq<K>)
    ensures |ks| == |rows|
    ensures forall j :: 0 <= j < |rows| ==> ks[j] == key(rows[j])
  {
    seq(|rows|, j requires 0 <= j < |rows| => key(rows[j]))
  }

  /** The distinct keys in order of first appearance. */
  function FirstKeys<K(==,!new)>(rows: seq<MomRow>, key: MomRow -> K): (ks: seq<K>)
    ensures NoDuplicates(ks)
    ensures forall k :: k in ks <==> exists j :: 0 <= j < |rows| && key(rows[j]) == k
  {
    var all := KeysOf(rows, key);
    assert forall k :: k in all <==> exists j :: 0 <= j < |rows| && key(rows[j]) == k by {
      forall k | k in all ensures exists j :: 0 <= j < |rows| && key(rows[j]) == k {
        var j :| 0 <= j < |all| && all[j] == k;
      }
    }
    Distinct(all)
  }

  /** The rows carrying key `k`, in input order. */
  function RowsWithKey<K(==)>(rows: seq<MomRow>, key: MomRow -> K, k: K): (r: seq<MomRow>)
    ensures |r| <= |rows|
    ensures forall m :: m in r ==> m in rows && key(m) == k
  {
    if rows == [] then []
    else
      var init := RowsWithKey(rows[..|rows| - 1], key, k);
      var last := rows[|rows| - 1];
      assert forall m :: m in rows[..|rows| - 1] ==> m in rows;
      if key(last) == k then init + [last] else init
  }

  /** `[...map.keys()].indexOf(k)`, or -1 when `!map.has(k)`. */
  function Find<K(==)>(gs: seq<Group<K>>, k: K): (i: int)
    ensures -1 <= i < |gs|
    ensures i >= 0 ==> gs[i].key == k
    ensures i == -1 ==> forall j :: 0 <= j < |gs| ==> gs[j].key != k
  {
    if gs == [] then -1
    else
      var j := Find(gs[..|gs| - 1], k);
      if j >= 0 then j else if gs[|gs| - 1].key == k then |gs| - 1 else -1
  }

  /** One `forEach` step: open the row's group if needed, then push the row into it. */
  function AddRow<K(==)>(gs: seq<Group<K>>, r: MomRow, key: MomRow -> K): (r': seq<Group<K>>)
    ensures |gs| <= |r'| <= |gs| + 1
  {
    var i := Find(gs, key(r));
    if i < 0 then gs + [Group(key(r), r.from, r.job, r.deadline, [r])]
    else gs[i := gs[i].(members := gs[i].members + [r])]
  }

  /** The `Map` after the whole `forEach`, in insertion order. */
  function Fill<K(==)>(rows: seq<MomRow>, key: MomRow -> K): (gs: seq<Group<K>>)
    ensures |gs| <= |rows|
    ensures rows != [] ==> gs != []
  {
    if rows == [] then [] else AddRow(Fill(rows[..|rows| - 1], key), rows[|rows| - 1], key)
  }

  /** The `Map` after the rows so far: a group per distinct key, first-appearance order, rows in input order. */
  predicate Describes<K(==,!new)>(gs: seq<Group<K>>, rows: seq<MomRow>, key: MomRow -> K) {
    var ks := FirstKeys(rows, key);
    |gs| == |ks| &&
    forall i :: 0 <= i < |gs| ==>
      gs[i].key == ks[i] &&
      gs[i].members == RowsWithKey(rows, key, ks[i]) &&
      gs[i].members != [] &&
      gs[i].from == gs[i].members[0].from &&
      gs[i].job == gs[i].members[0].job &&
      gs[i].deadline == gs[i].members[0].deadline
  }

  lemma KeysOfSnoc<K>(rows: seq<MomRow>, r: MomRow, key: MomRow -> K)
    ensures KeysOf(rows + [r], key) == KeysOf(rows, key) + [key(r)]
  {
  }

  /** A key no row carries has no rows. */
  lemma {:induction false} RowsWithAbsentKey<K>(rows: seq<MomRow>, key: MomRow -> K, k: K)
    requires forall j :: 0 <= j < |rows| ==> key(rows[j]) != k
    ensures RowsWithKey(rows, key, k) == []
  {
    if rows != [] {
      RowsWithAbsentKey(rows[..|rows| - 1], key, k);
    }
  }

  /** One more row adds its key at the end, unless the key was seen already. */
  lemma FirstKeysSnoc<K(!new)>(rows: seq<MomRow>, r: MomRow, key: MomRow -> K)
    ensures FirstKeys(rows + [r], key)
      == if key(r) in FirstKeys(rows, key) then FirstKeys(rows, key) else FirstKeys(rows, key) + [key(r)]
  {
    KeysOfSnoc(rows, r, key);
    DistinctSnoc(KeysOf(rows, key), key(r));
  }

  /** One more row joins the rows of its own key and no other. */
  lemma RowsWithKeySnoc<K>(rows: seq<MomRow>, r: MomRow, key: MomRow -> K, k: K)
    ensures RowsWithKey(rows + [r], key, k)
      == if key(r) == k then RowsWithKey(rows, key, k) + [r] else RowsWithKey(rows, key, k)
  {
    assert (rows + [r])[..|rows|] == rows;
  }

  /** A row with a new key opens a group of its own at the end. */
  lemma AddRowNew<K(!new)>(gs: seq<Group<K>>, rows: seq<MomRow>, r: MomRow, key: MomRow -> K)
    requires Describes(gs, rows, key)
    requires key(r) !in FirstKeys(rows, key)
    ensures Describes(gs + [Group(key(r), r.from, r.job, r.deadline, [r])], rows + [r], key)
  {
    var ks := FirstKeys(rows, key);
    var gs' := gs + [Group(key(r), r.from, r.job, r.deadline, [r])];
    var ks' := ks + [key(r)];
    assert FirstKeys(rows + [r], key) == ks' by {
      FirstKeysSnoc(rows, r, key);
    }
    forall j | 0 <= j < |gs'|
      ensures gs'[j].key == ks'[j] && gs'[j].members == RowsWithKey(rows + [r], key, ks'[j])
      ensures gs'[j].members != [] && gs'[j].from == gs'[j].members[0].from
      ensures gs'[j].job == gs'[j].members[0].job && gs'[j].deadline == gs'[j].members[0].deadline
    {
      RowsWithKeySnoc(rows, r, key, ks'[j]);
      if j == |gs| {
        RowsWithAbsentKey(rows, key, key(r));
      } else {
        assert ks'[j] == ks[j] != key(r);
      }
    }
  }

  /** A row with a seen key joins the end of that key's group. */
  lemma AddRowExisting<K(!new)>(gs: seq<Group<K>>, rows: seq<MomRow>, r: MomRow, key: MomRow -> K, i: int)
    requires Describes(gs, rows, key)
    requires 0 <= i < |gs| && gs[i].key == key(r)
    ensures Describes(gs[i := gs[i].(members := gs[i].members + [r])], rows + [r], key)
  {
    var ks := FirstKeys(rows, key);
    var gs' := gs[i := gs[i].(members := gs[i].members + [r])];
    assert FirstKeys(rows + [r], key) == ks by {
      FirstKeysSnoc(rows, r, key);
    }
    forall j | 0 <= j < |gs'|
      ensures gs'[j].key == ks[j] && gs'[j].members == RowsWithKey(rows + [r], key, ks[j])
      ensures gs'[j].members != [] && gs'[j].from == gs'[j].members[0].from
      ensures gs'[j].job == gs'[j].members[0].job && gs'[j].deadline == gs'[j].members[0].deadline
    {
      RowsWithKeySnoc(rows, r, key, ks[j]);
      if j != i {
        assert ks[j] != ks[i];
      } else {
        assert gs'[j].members[0] == gs[j].members[0];
      }
    }
  }

  /** One `forEach` step keeps the `Map` describing the rows seen so far. */
  lemma AddRowDescribes<K(!new)>(gs: seq<Group<K>>, rows: seq<MomRow>, r: MomRow, key: MomRow -> K)
    requires Describes(gs, rows, key)
    ensures Describes(AddRow(gs, r, key), rows + [r], key)
  {
    var i := Find(gs, key(r));
    if i < 0 {
      AddRowNew(gs, rows, r, key);
    } else {
      AddRowExisting(gs, rows, r, key, i);
    }
  }

  /** The grouping as a whole: one group per distinct key, in order, each holding exactly its rows. */
  lemma {:induction false} FillDescribes<K(!new)>(rows: seq<MomRow>, key: MomRow -> K)
    ensures Describes(Fill(rows, key), rows, key)
    decreases |rows|
  {
    if rows != [] {
      var init := rows[..|rows| - 1];
      FillDescribes(init, key);
      assert init + [rows[|rows| - 1]] == rows;
      AddRowDescribes(Fill(init, key), init, rows[|rows| - 1], key);
    }
  }

  /** A row is among the rows of its own key. */
  lemma {:induction false} RowsWithKeyHas<K>(rows: seq<MomRow>, key: MomRow -> K, j: int)
    requires 0 <= j < |rows|
    ensures rows[j] in RowsWithKey(rows, key, key(rows[j]))
  {
    if j < |rows| - 1 {
      RowsWithKeyHas(rows[..|rows| - 1], key, j);
    }
  }

  /** The sizes of the groups of the keys `ks`. */
  function Counted<K(==)>(rows: seq<MomRow>, key: MomRow -> K, ks: seq<K>): nat {
    if ks == [] then 0 else |RowsWithKey(rows, key, ks[0])| + Counted(rows, key, ks[1..])
  }

  lemma {:induction false} CountedSnoc<K>(rows: seq<MomRow>, r: MomRow, key: MomRow -> K, ks: seq<K>)
    requires NoDuplicates(ks)
    ensures Counted(rows + [r], key, ks) == Counted(rows, key, ks) + if key(r) in ks then 1 else 0
  {
    if ks != [] {
      assert (rows + [r])[..|rows + [r]| - 1] == rows;
      CountedSnoc(rows, r, key, ks[1..]);
      assert key(r) in ks <==> key(r) == ks[0] || key(r) in ks[1..];
      assert ks[0] !in ks[1..];
    }
  }

  lemma CountedAppendKey<K>(rows: seq<MomRow>, key: MomRow -> K, ks: seq<K>, k: K)
    ensures Counted(rows, key, ks + [k]) == Counted(rows, key, ks) + |RowsWithKey(rows, key, k)|
  {
    if ks != [] {
      assert (ks + [k])[1..] == ks[1..] + [k];
      CountedAppendKey(rows, key, ks[1..], k);
    }
  }

  /** The group sizes add up to the number of rows: nothing is dropped or counted twice. */
  lemma {:induction false} CountedAll<K(!new)>(rows: seq<MomRow>, key: MomRow -> K)
    ensures Counted(rows, key, FirstKeys(rows, key)) == |rows|
    decreases |rows|
  {
    if rows != [] {
      var init := rows[..|rows| - 1];
      var r := rows[|rows| - 1];
      assert init + [r] == rows;
      CountedAll(init, key);
      var ks := FirstKeys(init, key);
      KeysOfSnoc(init, r, key);
      DistinctSnoc(KeysOf(init, key), key(r));
      CountedSnoc(init, r, key, ks);
      if key(r) !in ks {
        CountedAppendKey(rows, key, ks, key(r));
        RowsWithAbsentKey(init, key, key(r));
      }
    }
  }

  /** Each row is a member of the group of its key. */
  lemma GroupOfRow<K(!new)>(rows: seq<MomRow>, key: MomRow -> K, j: int) returns (i: int)
    requires 0 <= j < |rows|
    ensures 0 <= i < |Fill(rows, key)|
    ensures Fill(rows, key)[i].key == key(rows[j]) && rows[j] in Fill(rows, key)[i].members
  {
    var ks := FirstKeys(rows, key);
    FillDescribes(rows, key);
    assert key(rows[j]) in ks;
    i :| 0 <= i < |ks| && ks[i] == key(rows[j]);
    RowsWithKeyHas(rows, key, j);
  }

  /** No value is a member of two groups. */
  lemma GroupsDisjoint<K(!new)>(rows: seq<MomRow>, key: MomRow -> K, m: MomRow, i1: int, i2: int)
    requires 0 <= i1 < |Fill(rows, key)| && 0 <= i2 < |Fill(rows, key)|
    requires m in Fill(rows, key)[i1].members && m in Fill(rows, key)[i2].members
    ensures i1 == i2
  {
    var ks := FirstKeys(rows, key);
    FillDescribes(rows, key);
    assert ks[i1] == key(m) == ks[i2];
  }

  /**
   * Every row lands in exactly one group, the one of its key, and the group
   * sizes add up to the number of rows.
   */
  lemma GroupingPartitions<K(!new)>(rows: seq<MomRow>, key: MomRow -> K)
    ensures forall j :: 0 <= j < |rows| ==>
      exists i :: 0 <= i < |Fill(rows, key)| && rows[j] in Fill(rows, key)[i].members
    ensures forall m, i1, i2 :: 0 <= i1 < |Fill(rows, key)| && 0 <= i2 < |Fill(rows, key)| ==>
      (m in Fill(rows, key)[i1].members && m in Fill(rows, key)[i2].members ==> i1 == i2)
    ensures Counted(rows, key, FirstKeys(rows, key)) == |rows|
  {
    forall j | 0 <= j < |rows|
      ensures exists i :: 0 <= i < |Fill(rows, key)| && rows[j] in Fill(rows, key)[i].members
    {
      var i := GroupOfRow(rows, key, j);
    }
    forall m, i1, i2 | 0 <= i1 < |Fill(rows, key)| && 0 <= i2 < |Fill(rows, key)| &&
        m in Fill(rows, key)[i1].members && m in Fill(rows, key)[i2].members
      ensures i1 == i2
    {
      GroupsDisjoint(rows, key, m, i1, i2);
    }
    CountedAll(rows, key);
  }

  // ---------------------------------------------------------------- the two groupers

  /** One group as the dashboard renders it. */
  datatype Summary = Summary(
    from: Option<string>,
    job: Option<string>,
    deadline: Option<string>,
    members: seq<MomRow>,
    primary: MomRow,
    count: nat,
    severity: Severity)

  /** The key parts `groupMomRows` joins. */
  function PlainKey(r: MomRow): (k: seq<string>)
    ensures |k| == 2 && Lower(k[0]) == k[0] && Lower(k[1]) == k[1]
    ensures |k[0]| <= |r.job.GetOr("")| && |k[1]| <= |r.deadline.GetOr("")|
  {
    [Normalize(r.job), Normalize(r.deadline)]
  }

  /** The key parts `groupMergedMomRows` joins. */
  function MergedKey(r: MomRow): (k: seq<string>)
    ensures |k| == 3 && Lower(k[0]) == k[0] && Lower(k[1]) == k[1] && Lower(k[2]) == k[2]
    ensures k[1..] == PlainKey(r)
  {
    [Normalize(r.from), Normalize(r.job), Normalize(r.deadline)]
  }

  /** The `Map` key as written: the parts joined with `|`. */
  function JoinedKey(parts: seq<string>): string {
    Join(parts, "|")
  }

  /** One row of the `forEach`: `set` an empty group when the key is new, then `push`. */
  method PushRow(gs: seq<Group<seq<string>>>, r: MomRow, key: MomRow -> seq<string>)
    returns (gs': seq<Group<seq<string>>>)
    ensures gs' == AddRow(gs, r, key)
  {
    var i := Find(gs, key(r));
    gs' := gs;
    if i < 0 {
      gs' := gs' + [Group(key(r), r.from, r.job, r.deadline, [])];
      i := |gs'| - 1;
      assert gs'[i].members + [r] == [r];
      gs' := gs'[i := gs'[i].(members := gs'[i].members + [r])];
      assert gs' == gs + [Group(key(r), r.from, r.job, r.deadline, [r])];
    } else {
      gs' := gs'[i := gs'[i].(members := gs'[i].members + [r])];
    }
  }

  /** The `forEach` over the rows, filling the grouping `Map`. */
  method FillGroups(rows: seq<MomRow>, key: MomRow -> seq<string>) returns (gs: seq<Group<seq<string>>>)
    ensures gs == Fill(rows, key)
  {
    gs := [];
    var n := 0;
    while n < |rows|
      invariant n <= |rows|
      invariant gs == Fill(rows[..n], key)
    {
      PrefixSnoc(rows, n);
      assert rows[..n + 1][..n] == rows[..n];
      gs := PushRow(gs, rows[n], key);
      n := n + 1;
    }
    assert rows[..n] == rows;
  }

  /** The record `map(...)` builds from one group. */
  function SummaryOf(g: Group<seq<string>>, withFrom: bool): Summary
    requires g.members != []
  {
    Summary(if withFrom then g.from else None, g.job, g.deadline,
      g.members, Primary(g.members), |g.members|, GroupSeverity(g.members))
  }

  /** The `Array.from(map.values()).map(...)` step. */
  method Summarize(gs: seq<Group<seq<string>>>, withFrom: bool) returns (out: seq<Summary>)
    requires forall i :: 0 <= i < |gs| ==> gs[i].members != []
    ensures |out| == |gs|
    ensures forall i :: 0 <= i < |gs| ==> out[i] == SummaryOf(gs[i], withFrom)
  {
    out := seq(|gs|, i requires 0 <= i < |gs| => SummaryOf(gs[i], withFrom));
  }

  /** What each grouper returns: a group per distinct key, in first-appearance order. */
  predicate Grouped(out: seq<Summary>, rows: seq<MomRow>, key: MomRow -> seq<string>, withFrom: bool) {
    var ks := FirstKeys(rows, key);
    |out| == |ks| &&
    forall i :: 0 <= i < |out| ==>
      out[i].members == RowsWithKey(rows, key, ks[i]) &&
      out[i].members != [] &&
      out[i].from == (if withFrom then out[i].members[0].from else None) &&
      out[i].job == out[i].members[0].job &&
      out[i].deadline == out[i].members[0].deadline &&
      out[i].count == |out[i].members| &&
      out[i].primary == Primary(out[i].members) &&
      out[i].severity == GroupSeverity(out[i].members)
  }

  /** `groupMomRows`: rows grouped by normalised (job, deadline). */
  method GroupMomRows(rows: seq<MomRow>) returns (out: seq<Summary>)
    ensures Grouped(out, rows, PlainKey, false)
  {
    var gs := FillGroups(rows, PlainKey);
    FillDescribes(rows, PlainKey);
    out := Summarize(gs, false);
  }

  /** `groupMergedMomRows`: rows grouped by normalised (meeting, job, deadline). */
  method GroupMergedMomRows(rows: seq<MomRow>) returns (out: seq<Summary>)
    ensures Grouped(out, rows, MergedKey, true)
  {
    var gs := FillGroups(rows, MergedKey);
    FillDescribes(rows, MergedKey);
    out := Summarize(gs, true);
  }

  /** Two rows share a plain group exactly when their normalised jobs and deadlines agree. */
  lemma PlainGroupsAgree(rows: seq<MomRow>, out: seq<Summary>, i: int, a: MomRow, b: MomRow)
    requires Grouped(out, rows, PlainKey, false) && 0 <= i < |out|
    requires a in out[i].members && b in out[i].members
    ensures Normalize(a.job) == Normalize(b.job) && Normalize(a.deadline) == Normalize(b.deadline)
  {
    assert PlainKey(a) == PlainKey(b);
    assert PlainKey(a)[0] == PlainKey(b)[0] && PlainKey(a)[1] == PlainKey(b)[1];
  }

  /** Rows of meetings with different normalised names never share a merged group. */
  lemma MergedGroupsAgree(rows: seq<MomRow>, out: seq<Summary>, i: int, a: MomRow, b: MomRow)
    requires Grouped(out, rows, MergedKey, true) && 0 <= i < |out|
    requires a in out[i].members && b in out[i].members
    ensures Normalize(a.from) == Normalize(b.from)
    ensures Normalize(a.job) == Normalize(b.job) && Normalize(a.deadline) == Normalize(b.deadline)
  {
    assert MergedKey(a) == MergedKey(b);
    assert MergedKey(a)[0] == MergedKey(b)[0];
    assert MergedKey(a)[1] == MergedKey(b)[1] && MergedKey(a)[2] == MergedKey(b)[2];
  }

  // ---------------------------------------------------------------- the joined key as written

  /** `groupMergedMomRows` as written, keyed by the `|`-joined string. */
  function MergedKeyAsWritten(r: MomRow): string {
    JoinedKey(MergedKey(r))
  }

  /** `groupMomRows` as written, keyed by the `|`-joined string. */
  function PlainKeyAsWritten(r: MomRow): string {
    JoinedKey(PlainKey(r))
  }

  /** Lower-case letters and bars are already normalised. */
  lemma NormalizePlain(s: string)
    requires forall i :: 0 <= i < |s| ==> 'a' <= s[i] <= 'z' || s[i] == '|'
    ensures Normalize(Some(s)) == s
  {
    assert IsTrimmed(s);
    TrimOfTrimmed(s);
    assert Lower(s) == s;
  }

  /** Lower-case letters only. */
  predicate Letters(s: string) {
    forall i :: 0 <= i < |s| ==> 'a' <= s[i] <= 'z'
  }

  /** Two words of letters joined by a bar are already normalised. */
  lemma NormalizeBarred(a: string, b: string)
    requires Letters(a) && Letters(b)
    ensures Normalize(Some(a + "|" + b)) == a + "|" + b
  {
    var s := a + "|" + b;
    forall i | 0 <= i < |s| ensures 'a' <= s[i] <= 'z' || s[i] == '|' {
      if i < |a| {
        assert s[i] == a[i];
      } else if i > |a| {
        assert s[i] == b[i - |a| - 1];
      }
    }
    NormalizePlain(s);
  }

  /** Two rows with the same key, one after the other, make one group of both. */
  lemma FillTwo<K>(r1: MomRow, r2: MomRow, key: MomRow -> K)
    requires key(r1) == key(r2)
    ensures Fill([r1, r2], key) == [Group(key(r1), r1.from, r1.job, r1.deadline, [r1, r2])]
  {
    assert [r1, r2][..1] == [r1];
    assert [r1][..0] == [];
    var g1 := [Group(key(r1), r1.from, r1.job, r1.deadline, [r1])];
    assert Find<K>([], key(r1)) == -1;
    assert Fill([r1], key) == AddRow([], r1, key) == g1;
    assert g1[..0] == [];
    assert Find(g1, key(r2)) == 0;
    assert Fill([r1, r2], key) == AddRow(g1, r2, key);
    assert [r1] + [r2] == [r1, r2];
  }

  lemma JoinedThree(a: string, b: string, c: string)
    ensures JoinedKey([a, b, c]) == a + "|" + b + "|" + c
  {
    assert [a, b, c][1..] == [b, c];
    assert [b, c][1..] == [c];
    assert Join([c], "|") == c;
    assert Join([b, c], "|") == b + "|" + c;
  }

  /** Moving the brackets of a concatenation. */
  lemma Regroup<T>(x: seq<T>, y: seq<T>, z: seq<T>)
    ensures x + (y + z) == x + y + z
  {
  }

  /** The two bracketings of `a|b|c` followed by `d`. */
  lemma BarRegroup(a: string, b: string, c: string, d: string)
    ensures (a + "|" + b) + "|" + c + "|" + d == a + "|" + (b + "|" + c) + "|" + d
  {
    Regroup(a + "|", b + "|", c);
    Regroup(a + "|", b, "|");
  }

  lemma JoinedTwo(a: string, b: string)
    ensures JoinedKey([a, b]) == a + "|" + b
  {
    assert [a, b][1..] == [b];
    assert Join([b], "|") == b;
  }

  /**
   * Meeting `a|b` with job `c` and meeting `a` with job `b|c`, both due `d`:
   * different meetings, one joined key.
   */
  lemma MergedRowsCollide(r1: MomRow, r2: MomRow, a: string, b: string, c: string, d: string)
    requires Letters(a) && Letters(b) && Letters(c) && Letters(d)
    requires r1 == MomRow(None, Some(a + "|" + b), Some(c), Some(d), None)
    requires r2 == MomRow(None, Some(a), Some(b + "|" + c), Some(d), None)
    ensures Normalize(r1.from) != Normalize(r2.from)
    ensures MergedKeyAsWritten(r1) == MergedKeyAsWritten(r2)
  {
    NormalizeBarred(a, b);
    NormalizeBarred(b, c);
    NormalizePlain(a);
    NormalizePlain(c);
    NormalizePlain(d);
    assert MergedKey(r1) == [a + "|" + b, c, d] && MergedKey(r2) == [a, b + "|" + c, d];
    JoinedThree(a + "|" + b, c, d);
    JoinedThree(a, b + "|" + c, d);
    BarRegroup(a, b, c, d);
    assert |a + "|" + b| != |a|;
  }

  /** Job `a|b` due `c` and job `a` due `b|c`: different jobs, one joined key. */
  lemma PlainRowsCollide(r1: MomRow, r2: MomRow, a: string, b: string, c: string)
    requires Letters(a) && Letters(b) && Letters(c)
    requires r1 == MomRow(None, None, Some(a + "|" + b), Some(c), None)
    requires r2 == MomRow(None, None, Some(a), Some(b + "|" + c), None)
    ensures Normalize(r1.job) != Normalize(r2.job)
    ensures PlainKeyAsWritten(r1) == PlainKeyAsWritten(r2)
  {
    NormalizeBarred(a, b);
    NormalizeBarred(b, c);
    NormalizePlain(a);
    NormalizePlain(c);
    assert PlainKey(r1) == [a + "|" + b, c] && PlainKey(r2) == [a, b + "|" + c];
    JoinedTwo(a + "|" + b, c);
    JoinedTwo(a, b + "|" + c);
    Regroup(a + "|", b + "|", c);
    Regroup(a + "|", b, "|");
    assert |a + "|" + b| != |a|;
  }

  /** With the joined key, the two merged-view rows of the collision land in one group. */
  lemma MergedKeyAsWrittenCollides(r1: MomRow, r2: MomRow, a: string, b: string, c: string, d: string)
    requires Letters(a) && Letters(b) && Letters(c) && Letters(d)
    requires r1 == MomRow(None, Some(a + "|" + b), Some(c), Some(d), None)
    requires r2 == MomRow(None, Some(a), Some(b + "|" + c), Some(d), None)
    ensures Normalize(r1.from) != Normalize(r2.from)
    ensures Fill([r1, r2], MergedKeyAsWritten) == [Group(MergedKeyAsWritten(r1), r1.from, r1.job, r1.deadline, [r1, r2])]
  {
    MergedRowsCollide(r1, r2, a, b, c, d);
    FillTwo(r1, r2, MergedKeyAsWritten);
  }

  /** With the joined key, the two dashboard rows of the collision land in one group. */
  lemma PlainKeyAsWrittenCollides(r1: MomRow, r2: MomRow, a: string, b: string, c: string)
    requires Letters(a) && Letters(b) && Letters(c)
    requires r1 == MomRow(None, None, Some(a + "|" + b), Some(c), None)
    requires r2 == MomRow(None, None, Some(a), Some(b + "|" + c), None)
    ensures Normalize(r1.job) != Normalize(r2.job)
    ensures Fill([r1, r2], PlainKeyAsWritten) == [Group(PlainKeyAsWritten(r1), r1.from, r1.job, r1.deadline, [r1, r2])]
  {
    PlainRowsCollide(r1, r2, a, b, c);
    FillTwo(r1, r2, PlainKeyAsWritten);
  }
}
