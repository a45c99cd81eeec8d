/**
 * What the dashboard does when the assignee of a MoM row settles it from the
 * action modal (`handleFinalAction`): the status patch sent for the row, the
 * hand-over rows added to the meeting, and whether the meeting's MoM is
 * fetched again. The mails and the HTTP calls themselves are not modelled.
 */
module FinalAction {
  import opened Common
  import opened Text
  import opened Grouping

  /** `ROW_COLORS`. */
  const COMPLETED_COLOR: string := "#bbf7d0"
  const REASSIGNED_COLOR: string := "#bae6fd"
  const REJECTED_COLOR: string := "#fecaca"
  const NEED_TIME_COLOR: string := "#fed7aa"

  /** `COLOR_BY_SEVERITY`: the background of a group of rows of that severity. */
  function SeverityColor(s: Severity): string {
    match s
    case Completed => COMPLETED_COLOR
    case Reassigned => REASSIGNED_COLOR
    case Rejected => REJECTED_COLOR
    case NeedTime => NEED_TIME_COLOR
    case Default => "transparent"
  }

  /** A person a job is handed over to. */
  datatype Person = Person(name: Option<string>, email: Option<string>)

  /**
   * What the modal hands over; `None` is an absent (or null) field, and
   * `assignList` is `None` when it is not an array.
   */
  datatype Payload = Payload(
    remark: Option<string>, deadline: Option<string>, assignList: Option<seq<Person>>,
    name: Option<string>, email: Option<string>)

  /** The job card acted on: both spellings of the MoM row id, its meeting and its row fields. */
  datatype CardJob = CardJob(
    momId: Option<int>, momIdAlt: Option<int>, meetingId: string,
    job: Option<string>, deadline: Option<string>, remark: Option<string>)

  /** The fields sent to `updateMomStatus`; `None` leaves a field out of the patch. */
  datatype Patch = Patch(status: string, statusColor: string, deadline: Option<string>, remark: Option<string>)

  /** A MoM row posted to the meeting. */
  datatype NewRow = NewRow(
    name: Option<string>, job: Option<string>, deadline: Option<string>,
    remark: string, status: string, email: Option<string>)

  /** What one action leads to: the row patch (row id and fields), the rows posted, and whether the MoM is re-fetched. */
  datatype Effects = Effects(update: Option<(int, Patch)>, insert: seq<NewRow>, refetch: bool)

  const NO_EFFECTS: Effects := Effects(None, [], false)

  /** A number is truthy unless it is absent or zero. */
  predicate IdTruthy(n: Option<int>) {
    n.Some? && n.value != 0
  }

  /** `job.momId || job.mom_id`, `None` when neither is truthy. */
  function MomIdOf(j: CardJob): (r: Option<int>)
    ensures r.Some? <==> IdTruthy(j.momId) || IdTruthy(j.momIdAlt)
    ensures r.Some? ==> r.value != 0 && (r == j.momId || r == j.momIdAlt)
  {
    if IdTruthy(j.momId) then j.momId else if IdTruthy(j.momIdAlt) then j.momIdAlt else None
  }

  /** `a ?? b`. */
  function OrElse(a: Option<string>, b: Option<string>): Option<string> {
    if a.Some? then a else b
  }

  /** Whom the action hands the job over to. */
  function Assignees(kind: string, p: Payload): seq<Person> {
    if kind == "needTime" then
      (if p.assignList.Some? then p.assignList.value else [])
    else if kind == "reassign" then
      (if p.assignList.Some? && |p.assignList.value| > 0 then p.assignList.value
       else if Truthy(p.name) && Truthy(p.email) then [Person(p.name, p.email)]
       else [])
    else []
  }

  /** The posted row for one assignee. */
  function HandOver(kind: string, j: CardJob, p: Payload, a: Person): NewRow {
    if kind == "needTime" then
      NewRow(a.name, j.job, Some(OrElse(p.deadline, j.deadline).GetOr("")),
        OrElse(p.remark, j.remark).GetOr(""), "Assigned", Some(a.email.GetOr("")))
    else
      NewRow(a.name, j.job, j.deadline, OrElse(p.remark, j.remark).GetOr(""), "Assigned", a.email)
  }

  /** The eight-letter action names are three different words. */
  lemma KindsDistinct()
    ensures "reassign" != "rejected" && "needTime" != "rejected" && "needTime" != "reassign"
  {
    assert "reassign"[2] == 'a' && "rejected"[2] == 'j' && "needTime"[0] == 'n' && "reassign"[0] == 'r';
  }

  /** `handleFinalAction(type, job, payload)`. */
  function HandleFinalAction(kind: string, j: CardJob, p: Payload): (e: Effects)
    ensures e.update.Some? <==> MomIdOf(j).Some? && kind in {"rejected", "needTime", "reassign", "completed"}
    ensures e.update.Some? ==> e.update.value.0 == MomIdOf(j).value
    ensures e.insert != [] ==> e.refetch && (kind == "needTime" || kind == "reassign")
  {
    var id := MomIdOf(j);
    if id.None? then NO_EFFECTS
    else if kind == "rejected" then
      Effects(Some((id.value, Patch("Rejected", REJECTED_COLOR, None, Some(p.remark.GetOr(""))))), [], false)
    else if kind == "needTime" || kind == "reassign" then
      var patch :=
        if kind == "needTime" then
          Patch("Need Time", NEED_TIME_COLOR, Some(OrElse(p.deadline, j.deadline).GetOr("")), Some(p.remark.GetOr("")))
        else
          Patch("Reassigned", REASSIGNED_COLOR, None, Some(p.remark.GetOr("")));
      var people := Assignees(kind, p);
      Effects(Some((id.value, patch)), seq(|people|, i requires 0 <= i < |people| => HandOver(kind, j, p, people[i])), true)
    else if kind == "completed" then
      Effects(Some((id.value, Patch("Completed", COMPLETED_COLOR, None, None))), [], false)
    else NO_EFFECTS
  }

  /** A capitalised status word reads back, once normalised, as its lower-case form. */
  lemma NormalizeWord(s: string)
    requires s != [] && s[0] != ' ' && s[|s| - 1] != ' '
    requires forall i :: 0 <= i < |s| ==> 'a' <= s[i] <= 'z' || 'A' <= s[i] <= 'Z' || s[i] == ' '
    ensures Normalize(Some(s)) == Lower(s)
  {
    assert IsTrimmed(s);
    TrimOfTrimmed(s);
  }

  /** A status word's severity is read off its lower-case form. */
  lemma WordSeverity(s: string, t: string)
    requires s != [] && s[0] != ' ' && s[|s| - 1] != ' '
    requires forall i :: 0 <= i < |s| ==> 'a' <= s[i] <= 'z' || 'A' <= s[i] <= 'Z' || s[i] == ' '
    requires |t| == |s| && forall i :: 0 <= i < |s| ==> t[i] == LowerChar(s[i])
    ensures StatusSeverity(Some(s)) == TextSeverity(t)
  {
    NormalizeWord(s);
    assert Lower(s) == t;
  }

  /** The statuses the actions write, and the status of a hand-over row, as the grouping reads them. */
  lemma RejectedText()
    ensures StatusSeverity(Some("Rejected")) == Rejected
  {
    WordSeverity("Rejected", "rejected");
  }

  lemma NeedTimeText()
    ensures StatusSeverity(Some("Need Time")) == NeedTime
  {
    WordSeverity("Need Time", "need time");
  }

  lemma CompletedText()
    ensures StatusSeverity(Some("Completed")) == Completed
  {
    WordSeverity("Completed", "completed");
  }

  lemma ReassignedText()
    ensures StatusSeverity(Some("Reassigned")) == Reassigned
  {
    WordSeverity("Reassigned", "reassigned");
  }

  lemma AssignedText()
    ensures StatusSeverity(Some("Assigned")) == Default
  {
    WordSeverity("Assigned", "assigned");
    assert "assigned" != "rejected" by {
      assert "assigned"[0] == 'a' && "rejected"[0] == 'r';
    }
  }

  /** The severity each action's status means to the grouping. */
  function KindSeverity(kind: string): Severity {
    if kind == "rejected" then Rejected
    else if kind == "needTime" then NeedTime
    else if kind == "completed" then Completed
    else if kind == "reassign" then Reassigned
    else Default
  }

  /**
   * A job card without a row id does nothing. Otherwise the four actions patch
   * that row, and the status written is the one whose severity the action
   * names, painted with the colour `COLOR_BY_SEVERITY` gives that severity;
   * any other action does nothing.
   */
  lemma PatchMatchesAction(kind: string, j: CardJob, p: Payload)
    ensures HandleFinalAction(kind, j, p).update.Some? <==> MomIdOf(j).Some? && KindSeverity(kind) != Default
    ensures HandleFinalAction(kind, j, p).update.Some? ==>
      HandleFinalAction(kind, j, p).update.value.0 == MomIdOf(j).value &&
      StatusSeverity(Some(HandleFinalAction(kind, j, p).update.value.1.status)) == KindSeverity(kind) &&
      HandleFinalAction(kind, j, p).update.value.1.statusColor == SeverityColor(KindSeverity(kind))
    ensures MomIdOf(j).None? || KindSeverity(kind) == Default ==> HandleFinalAction(kind, j, p) == NO_EFFECTS
  {
    if MomIdOf(j).None? || KindSeverity(kind) == Default {
      NoPatch(kind, j, p);
    } else {
      KindPatch(kind, j, p);
      KindWordSeverity(kind);
    }
  }

  /** The status word each of the four actions writes. */
  function StatusWord(kind: string): string {
    if kind == "rejected" then "Rejected"
    else if kind == "needTime" then "Need Time"
    else if kind == "reassign" then "Reassigned"
    else "Completed"
  }

  /** The status word an action writes reads back as the action's severity. */
  lemma KindWordSeverity(kind: string)
    requires KindSeverity(kind) != Default
    ensures StatusSeverity(Some(StatusWord(kind))) == KindSeverity(kind)
  {
    if kind == "rejected" {
      RejectedText();
    } else if kind == "needTime" {
      NeedTimeText();
    } else if kind == "reassign" {
      ReassignedText();
    } else {
      CompletedText();
    }
  }

  /** The patch one of the four actions sends: the row's id, the action's status word and its severity's colour. */
  lemma KindPatch(kind: string, j: CardJob, p: Payload)
    requires MomIdOf(j).Some? && KindSeverity(kind) != Default
    ensures HandleFinalAction(kind, j, p).update.Some?
    ensures HandleFinalAction(kind, j, p).update.value.0 == MomIdOf(j).value
    ensures HandleFinalAction(kind, j, p).update.value.1.status == StatusWord(kind)
    ensures HandleFinalAction(kind, j, p).update.value.1.statusColor == SeverityColor(KindSeverity(kind))
  {
  }

  /** Without a row id, or for an action outside the four, nothing happens. */
  lemma NoPatch(kind: string, j: CardJob, p: Payload)
    requires MomIdOf(j).None? || KindSeverity(kind) == Default
    ensures HandleFinalAction(kind, j, p) == NO_EFFECTS
  {
  }


  /**
   * Rejecting, asking for time and reassigning write the payload's remark
   * (empty when absent); asking for time also moves the deadline, to the
   * payload's, else the job's, else empty. Completing writes neither.
   */
  lemma PatchFields(kind: string, j: CardJob, p: Payload)
    requires MomIdOf(j).Some? && KindSeverity(kind) != Default
    ensures var patch := HandleFinalAction(kind, j, p).update.value.1;
      (patch.remark.Some? <==> kind != "completed") &&
      (patch.remark.Some? ==> patch.remark.value == p.remark.GetOr("")) &&
      (patch.deadline.Some? <==> kind == "needTime") &&
      (patch.deadline.Some? ==>
        patch.deadline.value == (if p.deadline.Some? then p.deadline.value else j.deadline.GetOr("")))
  {
  }

  /**
   * Only asking for time and reassigning post rows: one open row per
   * assignee, in order, naming the assignee, for the same job, and the MoM is
   * fetched again afterwards.
   */
  lemma HandOverRows(kind: string, j: CardJob, p: Payload)
    ensures var e := HandleFinalAction(kind, j, p);
      e.refetch <==> MomIdOf(j).Some? && (kind == "needTime" || kind == "reassign")
    ensures var e := HandleFinalAction(kind, j, p);
      e.refetch ==> (
        |e.insert| == |Assignees(kind, p)| &&
        forall i :: 0 <= i < |e.insert| ==>
          e.insert[i].name == Assignees(kind, p)[i].name &&
          e.insert[i].job == j.job &&
          e.insert[i].status == "Assigned" &&
          StatusSeverity(Some(e.insert[i].status)) == Default &&
          e.insert[i].remark == (if p.remark.Some? then p.remark.value else j.remark.GetOr("")))
    ensures var e := HandleFinalAction(kind, j, p);
      !e.refetch ==> e.insert == []
  {
    AssignedText();
    KindsDistinct();
  }

  /**
   * Reassigning to no list falls back to the single person named in the
   * payload when both the name and the e-mail are non-empty, and to nobody
   * otherwise; asking for time never falls back.
   */
  lemma ReassignFallback(p: Payload)
    requires p.assignList.None? || p.assignList.value == []
    ensures Assignees("reassign", p) ==
      (if Truthy(p.name) && Truthy(p.email) then [Person(p.name, p.email)] else [])
    ensures Assignees("needTime", p) == []
  {
  }

  /** Asking for time gives every posted row the new deadline and an e-mail (empty when the assignee has none). */
  lemma NeedTimeRows(j: CardJob, p: Payload)
    requires MomIdOf(j).Some?
    ensures var e := HandleFinalAction("needTime", j, p);
      forall i :: 0 <= i < |e.insert| ==>
        e.insert[i].deadline == e.update.value.1.deadline &&
        e.insert[i].email.Some?
  {
  }

  /** Reassigning keeps the job's own deadline on the posted rows. */
  lemma ReassignRows(j: CardJob, p: Payload)
    requires MomIdOf(j).Some?
    ensures var e := HandleFinalAction("reassign", j, p);
      forall i :: 0 <= i < |e.insert| ==>
        e.insert[i].deadline == j.deadline &&
        e.insert[i].email == Assignees("reassign", p)[i].email
  {
  }
}
