/**
 * The minutes-of-meeting (MoM) action-item store of the PostgreSQL backend:
 * `mom_table` as a map from `mom_id` to a row, the batch insert that fills
 * per-field defaults inside one transaction, `update-status`, which assigns
 * only the fields present in the request and appends to `deadline_history`
 * when the trimmed deadline really changes, and `deadline-history`, which
 * lists that history newest first.
 */
module MomStore {
  import opened Common
  import opened Text
  import opened Seqs

  /** A field of a JSON request body: absent (`undefined`), `null`, or a string. */
  datatype Field = Missing | Null | Str(s: string) {
    /** `v ?? d`: the string when there is one, `d` for null or undefined. */
    function OrElse(d: string): string {
      if Str? then s else d
    }

    /** `v || d`: the string when it is non-empty, `d` otherwise. */
    function OrIfFalsy(d: string): string {
      if Str? && s != "" then s else d
    }

    /** The SQL value a present field binds: the string, or NULL. */
    function Sql(): Option<string> {
      if Str? then Some(s) else None
    }
  }

  /**
   * One `deadline_history` record, `{old, new, reason, remark, by, changedAt}`;
   * `changedAt` is the clock reading in milliseconds.
   */
  datatype HistoryEntry = HistoryEntry(
    oldDeadline: Option<string>, newDeadline: string, reason: string, remark: string,
    changedBy: Option<string>, changedAt: int)

  /** A `mom_table` row; `None` is SQL NULL. */
  datatype MomRow = MomRow(
    meetingId: nat, name: Option<string>, job: Option<string>, deadline: Option<string>,
    remark: Option<string>, category: Option<string>, assignedBy: Option<string>,
    status: Option<string>, statusColor: Option<string>, email: Option<string>,
    history: seq<HistoryEntry>)

  /** One element of the `mom` array of a batch-insert request. */
  datatype MomEntry = MomEntry(
    name: Field, job: Field, deadline: Field, remark: Field, category: Field,
    assignedBy: Field, assigned_by: Field, status: Field, email: Field)

  /** The body of `update-status`. */
  datatype StatusBody = StatusBody(
    status: Field, remark: Field, statusColor: Field, name: Field, email: Field, deadline: Field)

  /** The row one batch entry becomes: every missing text is `''`, the status `Assigned`. */
  function NewRow(meetingId: nat, e: MomEntry): (r: MomRow)
    ensures r.meetingId == meetingId && r.history == [] && r.statusColor == None
    ensures r.name == Some(if e.name.Str? then e.name.s else "")
    ensures r.job == Some(if e.job.Str? then e.job.s else "")
    ensures r.deadline == Some(if e.deadline.Str? then e.deadline.s else "")
    ensures r.remark == Some(if e.remark.Str? then e.remark.s else "")
    ensures r.category == Some(if e.category.Str? then e.category.s else "")
    ensures r.email == Some(if e.email.Str? then e.email.s else "")
    ensures r.status == Some(if e.status.Str? then e.status.s else "Assigned")
    ensures r.assignedBy == Some(if e.assignedBy.Str? then e.assignedBy.s
                                 else if e.assigned_by.Str? then e.assigned_by.s else "")
  {
    MomRow(meetingId, Some(e.name.OrElse("")), Some(e.job.OrElse("")), Some(e.deadline.OrElse("")),
      Some(e.remark.OrElse("")), Some(e.category.OrElse("")),
      Some(e.assignedBy.OrElse(e.assigned_by.OrElse(""))), Some(e.status.OrElse("Assigned")),
      None, Some(e.email.OrElse("")), [])
  }

  /** The table after inserting `mom` in order under the ids `id`, `id + 1`, ... */
  function InsertAll(rows: map<nat, MomRow>, id: nat, meetingId: nat, mom: seq<MomEntry>): map<nat, MomRow>
    decreases |mom|
  {
    if mom == [] then rows
    else InsertAll(rows[id := NewRow(meetingId, mom[0])], id + 1, meetingId, mom[1..])
  }

  /**
   * A batch insert under fresh ids keeps every existing row and adds exactly
   * one row per entry, in order.
   */
  lemma {:induction false} InsertAllEffect(rows: map<nat, MomRow>, id: nat, meetingId: nat, mom: seq<MomEntry>)
    requires forall k :: k in rows ==> k < id
    ensures forall k :: k in InsertAll(rows, id, meetingId, mom) <==> k in rows || id <= k < id + |mom|
    ensures forall k :: k in rows ==> InsertAll(rows, id, meetingId, mom)[k] == rows[k]
    ensures forall i :: 0 <= i < |mom| ==> InsertAll(rows, id, meetingId, mom)[id + i] == NewRow(meetingId, mom[i])
    decreases |mom|
  {
    if mom != [] {
      var rows' := rows[id := NewRow(meetingId, mom[0])];
      var r := InsertAll(rows', id + 1, meetingId, mom[1..]);
      assert InsertAll(rows, id, meetingId, mom) == r;
      InsertAllEffect(rows', id + 1, meetingId, mom[1..]);
      assert r[id] == rows'[id];
      forall i | 0 < i < |mom|
        ensures r[id + i] == NewRow(meetingId, mom[i])
      {
        assert mom[1..][i - 1] == mom[i];
        assert id + i == (id + 1) + (i - 1);
      }
    }
  }

  /** Inserting from entry `i` on: entry `i` under `id`, then the rest from `id + 1`. */
  lemma InsertAllStep(rows: map<nat, MomRow>, id: nat, meetingId: nat, entries: seq<MomEntry>, i: int)
    requires 0 <= i < |entries|
    ensures InsertAll(rows, id, meetingId, entries[i..])
      == InsertAll(rows[id := NewRow(meetingId, entries[i])], id + 1, meetingId, entries[i + 1..])
  {
    assert entries[i..][1..] == entries[i + 1..];
  }

  /** `(current.deadline || '').trim()`. */
  function CurrentDeadline(row: MomRow): string {
    Trim(row.deadline.GetOr(""))
  }

  /** `String(deadline || '').trim()`. */
  function NewDeadline(body: StatusBody): string {
    Trim(body.deadline.OrIfFalsy(""))
  }

  /** The request carries a deadline whose trimmed text is non-empty and differs from the stored one. */
  predicate MovesDeadline(row: MomRow, body: StatusBody) {
    !body.deadline.Missing? && NewDeadline(body) != "" && NewDeadline(body) != CurrentDeadline(row)
  }

  /** The record `update-status` appends when the deadline moves. */
  function HistoryRecord(row: MomRow, body: StatusBody, now: int): (e: HistoryEntry)
    ensures e.reason != "" && e.changedAt == now
    ensures e.oldDeadline.Some? ==> e.oldDeadline.value != ""
    ensures e.changedBy.Some? ==> e.changedBy.value != ""
  {
    var cur := CurrentDeadline(row);
    HistoryEntry(
      if cur == "" then None else Some(cur),
      NewDeadline(body),
      body.status.OrIfFalsy("updated"),
      body.remark.OrIfFalsy(""),
      if body.name.Str? && body.name.s != "" then Some(body.name.s) else None,
      now)
  }

  /** At least one of the six fields is present: otherwise the request is refused. */
  predicate HasFields(body: StatusBody) {
    !body.status.Missing? || !body.remark.Missing? || !body.statusColor.Missing? ||
    !body.name.Missing? || !body.email.Missing? || !body.deadline.Missing?
  }

  /** The five plain columns of the UPDATE: each present field is written, NULL for `null`. */
  function AssignedFields(row: MomRow, body: StatusBody): MomRow {
    row.(
      status := if body.status.Missing? then row.status else body.status.Sql(),
      remark := if body.remark.Missing? then row.remark else body.remark.Sql(),
      statusColor := if body.statusColor.Missing? then row.statusColor else body.statusColor.Sql(),
      name := if body.name.Missing? then row.name else body.name.Sql(),
      email := if body.email.Missing? then row.email else body.email.Sql())
  }

  /** The row as `update-status` leaves it: a field-by-field description of the UPDATE. */
  function UpdatedRow(row: MomRow, body: StatusBody, now: int): (r: MomRow)
    ensures |row.history| <= |r.history| <= |row.history| + 1 && r.history[..|row.history|] == row.history
    ensures body.deadline.Missing? ==> r.deadline == row.deadline && r.history == row.history
  {
    AssignedFields(row, body).(
      deadline := if body.deadline.Missing? then row.deadline else Some(NewDeadline(body)),
      history := if MovesDeadline(row, body) then row.history + [HistoryRecord(row, body, now)]
                 else row.history)
  }

  /**
   * The history grows by exactly one record iff the trimmed new deadline is
   * non-empty and differs from the trimmed stored one; earlier records are kept
   * as they were, and the new record describes the change.
   */
  lemma UpdateAppendsHistory(row: MomRow, body: StatusBody, now: int)
    ensures var h := UpdatedRow(row, body, now).history;
      var moved := !body.deadline.Missing? && Trim(body.deadline.OrIfFalsy("")) != ""
                   && Trim(body.deadline.OrIfFalsy("")) != Trim(row.deadline.GetOr(""));
      h[..|row.history|] == row.history &&
      |h| == |row.history| + (if moved then 1 else 0) &&
      (moved ==> h[|row.history|].newDeadline == Trim(body.deadline.OrIfFalsy("")) &&
                 h[|row.history|].oldDeadline == (if Trim(row.deadline.GetOr("")) == "" then None
                                         else Some(Trim(row.deadline.GetOr("")))) &&
                 h[|row.history|].reason == (if body.status.Str? && body.status.s != "" then body.status.s else "updated") &&
                 h[|row.history|].remark == (if body.remark.Str? then body.remark.s else "") &&
                 h[|row.history|].changedBy == (if body.name.Str? && body.name.s != "" then Some(body.name.s) else None) &&
                 h[|row.history|].changedAt == now)
  {
  }

  /**
   * Only the fields present in the request change; the meeting, job, category
   * and assigner never do. A present deadline is written even when it is
   * blank or unchanged.
   */
  lemma UpdateTouchesOnlyPresent(row: MomRow, body: StatusBody, now: int)
    ensures var r := UpdatedRow(row, body, now);
      r.meetingId == row.meetingId && r.job == row.job && r.category == row.category &&
      r.assignedBy == row.assignedBy &&
      (body.status.Missing? ==> r.status == row.status) &&
      (body.remark.Missing? ==> r.remark == row.remark) &&
      (body.statusColor.Missing? ==> r.statusColor == row.statusColor) &&
      (body.name.Missing? ==> r.name == row.name) &&
      (body.email.Missing? ==> r.email == row.email) &&
      (body.deadline.Missing? ==> r.deadline == row.deadline && r.history == row.history) &&
      (!body.deadline.Missing? ==> r.deadline == Some(Trim(body.deadline.OrIfFalsy(""))))
  {
  }

  /** `changedAt` never decreases along a history: true of every history built by `update-status` with a clock that moves forward. */
  predicate Chronological(h: seq<HistoryEntry>) {
    forall i, j :: 0 <= i < j < |h| ==> h[i].changedAt < h[j].changedAt
  }

  /** An update made after every recorded change keeps the history chronological. */
  lemma UpdateKeepsChronological(row: MomRow, body: StatusBody, now: int)
    requires Chronological(row.history)
    requires forall i :: 0 <= i < |row.history| ==> row.history[i].changedAt < now
    ensures Chronological(UpdatedRow(row, body, now).history)
  {
  }

  /** The comparator `(a, b) => new Date(b.changedAt) - new Date(a.changedAt)`: `a` may precede `b`. */
  predicate NewestFirst(a: HistoryEntry, b: HistoryEntry) {
    a.changedAt >= b.changedAt
  }

  lemma NewestFirstIsPreorder()
    ensures TotalPreorder(NewestFirst)
  {
  }

  /** The response of `deadline-history`. */
  datatype HistoryView = HistoryView(currentDeadline: Option<string>, history: seq<HistoryEntry>)

  /** `row.deadline || null` together with the history sorted newest first. */
  function HistoryOf(row: MomRow): (v: HistoryView)
    ensures multiset(v.history) == multiset(row.history)
    ensures forall i, j :: 0 <= i < j < |v.history| ==> v.history[i].changedAt >= v.history[j].changedAt
    ensures v.currentDeadline.None? <==> row.deadline.None? || row.deadline.value == ""
    ensures v.currentDeadline.Some? ==> row.deadline == v.currentDeadline
  {
    NewestFirstIsPreorder();
    SortBySorted(row.history, NewestFirst);
    HistoryView(
      if row.deadline.None? || row.deadline.value == "" then None else row.deadline,
      SortBy(row.history, NewestFirst))
  }

  /** A chronological history is listed in exactly reverse order. */
  lemma HistoryNewestFirst(row: MomRow)
    requires Chronological(row.history)
    ensures HistoryOf(row).history == Reverse(row.history)
  {
    SortByReverses(row.history, NewestFirst);
  }

  /**
   * The `pushField` calls for status, remark, statusColor, name and email:
   * each present field adds one assignment to the UPDATE.
   */
  method StagePlainFields(current: MomRow, body: StatusBody) returns (updated: MomRow, fields: nat)
    ensures updated == AssignedFields(current, body)
    ensures fields == 0 <==>
              (body.status.Missing? && body.remark.Missing? && body.statusColor.Missing? &&
               body.name.Missing? && body.email.Missing?)
  {
    fields := 0;
    updated := current;
    if !body.status.Missing? {
      fields := fields + 1;
      updated := updated.(status := body.status.Sql());
    }
    if !body.remark.Missing? {
      fields := fields + 1;
      updated := updated.(remark := body.remark.Sql());
    }
    if !body.statusColor.Missing? {
      fields := fields + 1;
      updated := updated.(statusColor := body.statusColor.Sql());
    }
    if !body.name.Missing? {
      fields := fields + 1;
      updated := updated.(name := body.name.Sql());
    }
    if !body.email.Missing? {
      fields := fields + 1;
      updated := updated.(email := body.email.Sql());
    }
  }

  /**
   * The deadline part of the UPDATE: a present deadline is written trimmed,
   * and when it really moves, `deadline_history` gains the change record.
   */
  method StageDeadline(current: MomRow, body: StatusBody, now: int, updated0: MomRow, fields0: nat)
    returns (updated: MomRow, fields: nat)
    requires updated0 == AssignedFields(current, body)
    ensures updated == UpdatedRow(current, body, now)
    ensures fields == 0 <==> fields0 == 0 && body.deadline.Missing?
  {
    updated, fields := updated0, fields0;
    var currentDeadline := Trim(current.deadline.GetOr(""));
    if !body.deadline.Missing? {
      var newDeadline := Trim(body.deadline.OrIfFalsy(""));
      if newDeadline != "" && newDeadline != currentDeadline {
        var record := HistoryEntry(
          if currentDeadline == "" then None else Some(currentDeadline),
          newDeadline,
          body.status.OrIfFalsy("updated"),
          body.remark.OrIfFalsy(""),
          if body.name.Str? && body.name.s != "" then Some(body.name.s) else None,
          now);
        fields := fields + 2;
        updated := updated.(deadline := Some(newDeadline), history := current.history + [record]);
      } else {
        fields := fields + 1;
        updated := updated.(deadline := Some(newDeadline));
      }
    }
  }

  /** `mom_table`, with the next value of its `SERIAL` id. */
  class MomTable {
    var rows: map<nat, MomRow>
    var nextId: nat

    ghost predicate Valid()
      reads this
    {
      forall k :: k in rows ==> k < nextId
    }

    constructor ()
      ensures Valid() && rows == map[] && nextId == 1
    {
      rows := map[];
      nextId := 1;
    }

    /**
     * `POST /api/meetings/:id/mom`. `mom` is `None` when the body's `mom` is not
     * an array. `failAt` names the statement the database rejects, if any:
     * index `i < |mom|` is the i-th INSERT, `|mom|` the COMMIT. A rollback
     * drops the rows but not the serial ids the inserts before it drew.
     */
    method InsertBatch(meetingId: nat, mom: Option<seq<MomEntry>>, failAt: Option<nat>) returns (st: Status)
      requires Valid()
      modifies this
      ensures Valid()
      ensures mom.None? ==> st == BadRequest && rows == old(rows) && nextId == old(nextId)
      ensures mom.Some? && failAt.Some? && failAt.value <= |mom.value| ==>
        st == ServerError && rows == old(rows) && nextId == old(nextId) + failAt.value
      ensures mom.Some? && (failAt.None? || failAt.value > |mom.value|) ==>
        st == Ok && rows == InsertAll(old(rows), old(nextId), meetingId, mom.value) &&
        nextId == old(nextId) + |mom.value|
    {
      if mom.None? {
        return BadRequest;
      }
      var entries := mom.value;
      // BEGIN: the inserts go to a staged copy that only COMMIT publishes.
      var staged := rows;
      var id := nextId;
      var i := 0;
      while i < |entries|
        invariant 0 <= i <= |entries| && id == nextId + i
        invariant rows == old(rows) && nextId == old(nextId)
        invariant forall k :: k in staged ==> k < id
        invariant InsertAll(staged, id, meetingId, entries[i..]) == InsertAll(rows, nextId, meetingId, entries)
        invariant failAt.Some? ==> failAt.value >= i
      {
        if failAt == Some(i) {
          // ROLLBACK: the staged rows are dropped; the sequence keeps its advance.
          nextId := id;
          return ServerError;
        }
        InsertAllStep(staged, id, meetingId, entries, i);
        staged := staged[id := NewRow(meetingId, entries[i])];
        id := id + 1;
        i := i + 1;
      }
      if failAt == Some(|entries|) {
        nextId := id;
        return ServerError;
      }
      assert entries[i..] == [];
      rows := staged;
      nextId := id;
      st := Ok;
    }

    /**
     * `POST /api/mom/:id/update-status`; `now` is the clock and `queryFails` an
     * error the database reports for the SELECT or the UPDATE, which then
     * changes nothing.
     */
    method UpdateStatus(id: nat, body: StatusBody, now: int, queryFails: bool) returns (st: Status)
      requires Valid()
      modifies this
      ensures Valid() && nextId == old(nextId)
      ensures queryFails ==> st == ServerError && rows == old(rows)
      ensures !queryFails && id !in old(rows) ==> st == NotFound && rows == old(rows)
      ensures !queryFails && id in old(rows) && !HasFields(body) ==> st == BadRequest && rows == old(rows)
      ensures !queryFails && id in old(rows) && HasFields(body) ==>
        st == Ok && rows == old(rows)[id := UpdatedRow(old(rows)[id], body, now)]
    {
      if queryFails {
        return ServerError;
      }
      if id !in rows {
        return NotFound;
      }
      var current := rows[id];
      // `fields` counts the assignments of the UPDATE; `updated` is the row they produce.
      var updated, fields := StagePlainFields(current, body);
      updated, fields := StageDeadline(current, body, now, updated, fields);
      if fields == 0 {
        return BadRequest;
      }
      rows := rows[id := updated];
      st := Ok;
    }

    /** `GET /api/mom/:id/deadline-history`: `None` is the 404 for an unknown row. */
    function DeadlineHistory(id: nat): (r: Option<HistoryView>)
      reads this
      ensures r.Some? <==> id in rows
      ensures r.Some? ==> multiset(r.value.history) == multiset(rows[id].history)
      ensures r.Some? ==> forall i, j :: 0 <= i < j < |r.value.history| ==>
        r.value.history[i].changedAt >= r.value.history[j].changedAt
    {
      if id in rows then Some(HistoryOf(rows[id])) else None
    }
  }
}
