/**
 * The MoM handlers of the older SQLite backend: the batch insert runs one
 * statement per entry with no transaction around them, and `update-status`
 * assigns the present fields as given, the deadline untrimmed, with no
 * history and no check that the row exists.
 */
module LegacyMomStore {
  import opened Common
  import opened MomStore

  /** Inserting one more entry after a batch puts it under the id that follows the batch. */
  lemma {:induction false} InsertAllSnoc(rows: map<nat, MomRow>, id: nat, meetingId: nat, mom: seq<MomEntry>, e: MomEntry)
    ensures InsertAll(rows, id, meetingId, mom + [e])
      == InsertAll(rows, id, meetingId, mom)[id + |mom| := NewRow(meetingId, e)]
    decreases |mom|
  {
    if mom == [] {
      assert mom + [e] == [e] && [e][1..] == [];
    } else {
      assert (mom + [e])[1..] == mom[1..] + [e];
      InsertAllSnoc(rows[id := NewRow(meetingId, mom[0])], id + 1, meetingId, mom[1..], e);
    }
  }

  /**
   * With no transaction, a batch cut short after its first `k` entries leaves
   * a part of the table the whole batch would have left: every row it holds
   * is there with the same contents, and only the ids of the entries from `k`
   * on are missing.
   */
  lemma CutBatchIsPartOfWhole(rows: map<nat, MomRow>, id: nat, meetingId: nat, mom: seq<MomEntry>, k: nat)
    requires forall r :: r in rows ==> r < id
    requires k <= |mom|
    ensures forall r :: r in InsertAll(rows, id, meetingId, mom[..k]) ==>
      r in InsertAll(rows, id, meetingId, mom) &&
      InsertAll(rows, id, meetingId, mom[..k])[r] == InsertAll(rows, id, meetingId, mom)[r]
    ensures forall r :: r in InsertAll(rows, id, meetingId, mom) && r !in InsertAll(rows, id, meetingId, mom[..k]) <==>
      id + k <= r < id + |mom|
  {
    InsertAllEffect(rows, id, meetingId, mom[..k]);
    InsertAllEffect(rows, id, meetingId, mom);
    forall r | r in InsertAll(rows, id, meetingId, mom[..k]) && r !in rows
      ensures InsertAll(rows, id, meetingId, mom[..k])[r] == InsertAll(rows, id, meetingId, mom)[r]
    {
      assert mom[..k][r - id] == mom[r - id];
    }
  }

  /** The row the legacy UPDATE leaves: present fields as sent, the deadline included. */
  function LegacyUpdatedRow(row: MomRow, body: StatusBody): MomRow {
    AssignedFields(row, body).(
      deadline := if body.deadline.Missing? then row.deadline else body.deadline.Sql())
  }

  /**
   * Unlike the transactional handler, the legacy one writes a deadline exactly
   * as sent and never touches the history, even when the deadline moves.
   */
  lemma LegacyKeepsNoHistory(row: MomRow, body: StatusBody, now: int)
    ensures LegacyUpdatedRow(row, body).history == row.history
    ensures !body.deadline.Missing? ==> LegacyUpdatedRow(row, body).deadline == body.deadline.Sql()
    ensures MovesDeadline(row, body) ==>
      |UpdatedRow(row, body, now).history| == |LegacyUpdatedRow(row, body).history| + 1
  {
  }

  /** `mom_table` of the SQLite database, with its next rowid. */
  class LegacyMomTable {
    var rows: map<nat, MomRow>
    var nextId: nat

    ghost predicate Valid()
      reads this
    {
      forall k :: k in rows ==> k < nextId
    }

    constructor ()
      ensures Valid() && rows == map[] && nextId == 1
    {
      rows := map[];
      nextId := 1;
    }

    /**
     * `POST /api/meetings/:id/mom` without a transaction. `failAt` names the
     * entry whose `stmt.run` the database rejects, if any. Such a run has no
     * callback, so its error is an `'error'` event nobody listens to: the
     * handler gets no further and never answers (`None`), and the rows written
     * before it stay written. Otherwise `finalizeFails` is an error reported
     * when the statement is finalised.
     */
    method InsertBatch(meetingId: nat, mom: Option<seq<MomEntry>>, failAt: Option<nat>, finalizeFails: bool)
      returns (answer: Option<Status>)
      requires Valid()
      modifies this
      ensures Valid()
      ensures mom.None? ==> answer == Some(BadRequest) && rows == old(rows) && nextId == old(nextId)
      ensures mom.Some? && failAt.Some? && failAt.value < |mom.value| ==>
        answer == None && nextId == old(nextId) + failAt.value &&
        rows == InsertAll(old(rows), old(nextId), meetingId, mom.value[..failAt.value])
      ensures mom.Some? && (failAt.None? || failAt.value >= |mom.value|) ==>
        answer == Some(if finalizeFails then ServerError else Ok) && nextId == old(nextId) + |mom.value| &&
        rows == InsertAll(old(rows), old(nextId), meetingId, mom.value)
    {
      if mom.None? {
        return Some(BadRequest);
      }
      var entries := mom.value;
      var i := 0;
      assert entries[..0] == [];
      while i < |entries|
        invariant 0 <= i <= |entries| && Valid()
        invariant rows == InsertAll(old(rows), old(nextId), meetingId, entries[..i])
        invariant nextId == old(nextId) + i
        invariant failAt.Some? ==> failAt.value >= i
      {
        if failAt == Some(i) {
          return None;
        }
        InsertAllSnoc(old(rows), old(nextId), meetingId, entries[..i], entries[i]);
        assert entries[..i + 1] == entries[..i] + [entries[i]];
        rows := rows[nextId := NewRow(meetingId, entries[i])];
        nextId := nextId + 1;
        i := i + 1;
      }
      assert entries[..i] == entries;
      answer := Some(if finalizeFails then ServerError else Ok);
    }

    /**
     * `POST /api/mom/:id/update-status` of the SQLite backend; `runFails` is an
     * error the database reports for the UPDATE, which then changes nothing.
     */
    method UpdateStatus(id: nat, body: StatusBody, runFails: bool) returns (st: Status)
      requires Valid()
      modifies this
      ensures Valid() && nextId == old(nextId)
      ensures !HasFields(body) ==> st == BadRequest && rows == old(rows)
      ensures HasFields(body) && runFails ==> st == ServerError && rows == old(rows)
      ensures HasFields(body) && !runFails ==> st == Ok
      ensures HasFields(body) && !runFails && id in old(rows) ==> rows == old(rows)[id := LegacyUpdatedRow(old(rows)[id], body)]
      ensures HasFields(body) && !runFails && id !in old(rows) ==> rows == old(rows)
    {
      var fields := 0;
      var present := 0;
      var row := if id in rows then rows[id] else NewRow(0, MomEntry(Missing, Missing, Missing, Missing, Missing, Missing, Missing, Missing, Missing));
      var updated;
      updated, fields := StagePlainFields(row, body);
      if !body.deadline.Missing? {
        fields := fields + 1;
        updated := updated.(deadline := body.deadline.Sql());
      }
      if fields == 0 {
        return BadRequest;
      }
      if runFails {
        return ServerError;
      }
      // `UPDATE ... WHERE mom_id = ?` changes nothing when no row has that id.
      if id in rows {
        rows := rows[id := updated];
      }
      st := Ok;
    }
  }
}
