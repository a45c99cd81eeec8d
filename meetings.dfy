/**
 * The attendee list of a meeting as the backends store it: one text column
 * holding the names joined with `", "`, read back by splitting at `','` and
 * trimming each piece.
 */
module Meetings {
  import opened Common
  import opened Text

  /** A comma-free piece, trimmed. */
  lemma PieceTrimmed(s: string)
    requires ',' !in s
    ensures ',' !in Trim(s) && IsTrimmed(Trim(s))
  {
    TrimKeepsOut(s, ',');
  }

  /** `row.attendees ? row.attendees.split(',').map(x => x.trim()) : []`. */
  function StoredList(stored: Option<string>): (r: seq<string>)
    ensures stored.Some? && stored.value != "" ==> |r| >= 1
    ensures forall i :: 0 <= i < |r| ==> ',' !in r[i] && IsTrimmed(r[i])
  {
    if stored.None? || stored.value == "" then []
    else
      var pieces := Split(stored.value, ',');
      TrimmedPieces(pieces);
      TrimAll(pieces)
  }

  /** Trimming comma-free pieces gives trimmed, comma-free pieces. */
  lemma TrimmedPieces(pieces: seq<string>)
    requires forall i :: 0 <= i < |pieces| ==> ',' !in pieces[i]
    ensures forall i :: 0 <= i < |pieces| ==> ',' !in TrimAll(pieces)[i] && IsTrimmed(TrimAll(pieces)[i])
  {
    var r := TrimAll(pieces);
    forall i | 0 <= i < |pieces| ensures ',' !in r[i] && IsTrimmed(r[i]) {
      PieceTrimmed(pieces[i]);
    }
  }

  /** `if (!current.includes(name)) current.push(name)`: an exact, case-sensitive test. */
  function WithAttendee(current: seq<string>, name: string): (r: seq<string>)
    ensures name in r
    ensures |current| <= |r| <= |current| + 1 && r[..|current|] == current
    ensures name in current <==> r == current
    ensures forall x :: x in r ==> x in current || x == name
  {
    if name in current then current else current + [name]
  }

  /** Only an empty list of pieces joins to the empty text, or a single empty piece. */
  lemma JoinEmpty(parts: seq<string>)
    requires Join(parts, ", ") == ""
    ensures parts == [] || parts == [""]
  {
    if |parts| >= 2 {
      JoinLong(parts);
    }
  }

  lemma JoinLong(parts: seq<string>)
    requires |parts| >= 2
    ensures |Join(parts, ", ")| >= 2
  {
  }

  /**
   * A list of trimmed, comma-free names survives being stored and read back,
   * unless it is the single empty name, whose stored text reads as no names.
   */
  lemma ReadBack(list: seq<string>)
    requires list != [] && list != [""]
    requires forall i :: 0 <= i < |list| ==> ',' !in list[i] && IsTrimmed(list[i])
    ensures StoredList(Some(Join(list, ", "))) == list
  {
    assert Join(list, ", ") != "" by {
      if Join(list, ", ") == "" { JoinEmpty(list); }
    }
    SplitJoinRoundTrip(list);
  }

  /**
   * Adding a trimmed, comma-free name a second time stores the same text: the
   * name is read back as it was written and `includes` finds it.
   */
  lemma AddTwiceIsAddOnce(stored: Option<string>, name: string)
    requires name != "" && ',' !in name && IsTrimmed(name)
    ensures var once := WithAttendee(StoredList(stored), name);
      WithAttendee(StoredList(Some(Join(once, ", "))), name) == once
  {
    var once := WithAttendee(StoredList(stored), name);
    assert name in once && once != [""];
    ReadBack(once);
  }

  /** What `addMeeting` receives as `attendees`: an array, a text, or nothing (undefined or null). */
  datatype AttendeesInput = Names(names: seq<string>) | Text(text: string) | Absent

  /**
   * `Array.isArray(attendees) ? attendees.join(', ') : attendees || ''`, with
   * `attendees` defaulting to `[]`: the column is never NULL.
   */
  function AttendeesColumn(a: AttendeesInput): (r: string)
    ensures a.Names? ==> r == Join(a.names, ", ")
    ensures a.Text? ==> r == a.text
    ensures a.Absent? ==> StoredList(Some(r)) == []
  {
    match a
    case Names(ns) => Join(ns, ", ")
    case Text(t) => t
    case Absent => ""
  }

  /** A meeting created from an array of trimmed, comma-free names reads back as those names. */
  lemma AddMeetingRoundTrip(names: seq<string>)
    requires names != [] && names != [""]
    requires forall i :: 0 <= i < |names| ==> ',' !in names[i] && IsTrimmed(names[i])
    ensures StoredList(Some(AttendeesColumn(Names(names)))) == names
  {
    ReadBack(names);
  }

  /** The `attendees` column of `meetings`, by `meeting_id`; `None` is SQL NULL. */
  class MeetingTable {
    var attendees: map<nat, Option<string>>

    constructor ()
      ensures attendees == map[]
    {
      attendees := map[];
    }

    /**
     * `POST /api/meetings/:id/attendees`: 400 without a name, 500 when the
     * database reports an error (`queryFails`), 404 for an unknown meeting,
     * else the name is appended unless already present and the list is stored
     * joined with `", "`.
     */
    method AddAttendee(id: nat, name: Option<string>, queryFails: bool) returns (st: Status, list: seq<string>)
      modifies this
      ensures (name.None? || name.value == "") ==> st == BadRequest && attendees == old(attendees) && list == []
      ensures name.Some? && name.value != "" && queryFails ==>
        st == ServerError && attendees == old(attendees) && list == []
      ensures name.Some? && name.value != "" && !queryFails && id !in old(attendees) ==>
        st == NotFound && attendees == old(attendees) && list == []
      ensures name.Some? && name.value != "" && !queryFails && id in old(attendees) ==>
        st == Ok &&
        list == WithAttendee(StoredList(old(attendees)[id]), name.value) &&
        attendees == old(attendees)[id := Some(Join(list, ", "))]
    {
      if name.None? || name.value == "" {
        return BadRequest, [];
      }
      if queryFails {
        return ServerError, [];
      }
      if id !in attendees {
        return NotFound, [];
      }
      var current := StoredList(attendees[id]);
      if name.value !in current {
        current := current + [name.value];
      }
      attendees := attendees[id := Some(Join(current, ", "))];
      st, list := Ok, current;
    }
  }
}
