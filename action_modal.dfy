/**
 * The action modal a MoM row's assignee settles the row from: the people it
 * offers, the multi-selection of hand-over targets keyed by e-mail (else
 * name), the inline "add new person" form with its e-mail check, and the
 * payload it hands to the dashboard on submit.
 */
module ActionModal {
  import opened Common
  import opened Text
  import opened Seqs
  import FA = FinalAction

  type Person = FA.Person

  // ---------------------------------------------------------------- keys

  /** `p.email || p.name || ''`: the first truthy of the two, else empty. */
  function KeySource(p: Person): string {
    if Truthy(p.email) then p.email.value else if Truthy(p.name) then p.name.value else ""
  }

  /** `uniqKey(p)`: the key source lower-cased, then trimmed. */
  function UniqKey(p: Person): (k: string)
    ensures !Truthy(p.email) && !Truthy(p.name) ==> k == ""
  {
    Trim(Lower(KeySource(p)))
  }

  /**
   * A person with an e-mail is keyed by it, whatever the name; one without,
   * by the name; the key is the same for two spellings that differ only in
   * ASCII case.
   */
  lemma UniqKeyMeaning(p: Person)
    ensures Truthy(p.email) ==> UniqKey(p) == Trim(Lower(p.email.value))
    ensures !Truthy(p.email) && Truthy(p.name) ==> UniqKey(p) == Trim(Lower(p.name.value))
    ensures !Truthy(p.email) && !Truthy(p.name) ==> UniqKey(p) == ""
    ensures forall e :: Truthy(p.email) && Lower(e) == Lower(p.email.value) ==>
      UniqKey(FA.Person(p.name, Some(e))) == UniqKey(p)
  {
    forall e | Truthy(p.email) && Lower(e) == Lower(p.email.value)
      ensures UniqKey(FA.Person(p.name, Some(e))) == UniqKey(p)
    {
      assert |e| == |Lower(e)| == |p.email.value|;
      assert KeySource(FA.Person(p.name, Some(e))) == e;
    }
  }

  // ---------------------------------------------------------------- the e-mail check

  /** Neither white space (`\s`) nor `@`: the class `[^\s@]`. */
  predicate Plain(s: string) {
    forall i :: 0 <= i < |s| ==> !IsJsSpace(s[i]) && s[i] != '@'
  }

  /**
   * The language of `^[^\s@]+@[^\s@]+\.[^\s@]+$`: `t` is split by an `@` at
   * `i` and a `.` at `j` into three non-empty plain parts.
   */
  predicate EmailShaped(t: string) {
    exists i, j :: 0 < i && i + 1 < j && j + 1 < |t| && SplitsAt(t, i, j)
  }

  /** `t[..i]`, `t[i + 1..j]` and `t[j + 1..]` are plain, joined by `@` at `i` and `.` at `j`. */
  predicate SplitsAt(t: string, i: int, j: int)
    requires 0 <= i < j < |t|
  {
    t[i] == '@' && t[j] == '.' && Plain(t[..i]) && Plain(t[i + 1..j]) && Plain(t[j + 1..])
  }

  /**
   * The one-pass reading of the pattern: the text before the first `@` is a
   * non-empty run without space, everything after it is plain, and a `.`
   * sits strictly inside it.
   */
  function MatchesEmail(t: string): (ok: bool)
    ensures ok ==> '@' in t && '.' in t && |t| >= 5
  {
    var i := IndexOf(t, '@');
    var rest := t[i + 1..];
    i > 0 && Plain(t[..i]) && Plain(rest) && |rest| >= 3 && '.' in rest[1..|rest| - 1]
  }

  /** `emailOk(s)`: the pattern matched against the trimmed text. */
  function EmailOk(s: string): (ok: bool)
    ensures ok ==> |Trim(s)| >= 5
  {
    MatchesEmail(Trim(s))
  }

  /** What the one-pass reading accepts is in the language of the pattern. */
  lemma MatchesEmailSound(t: string)
    requires MatchesEmail(t)
    ensures EmailShaped(t)
  {
    var i := IndexOf(t, '@');
    var rest := t[i + 1..];
    var inner := rest[1..|rest| - 1];
    var k :| 0 <= k < |inner| && inner[k] == '.';
    var j := i + 2 + k;
    assert t[j] == '.';
    assert t[i + 1..j] == rest[..k + 1];
    assert t[j + 1..] == rest[k + 2..];
    assert SplitsAt(t, i, j);
  }

  /** Everything in the language of the pattern is accepted by the one-pass reading. */
  lemma MatchesEmailComplete(t: string)
    requires EmailShaped(t)
    ensures MatchesEmail(t)
  {
    var a, b :| 0 < a && a + 1 < b && b + 1 < |t| && SplitsAt(t, a, b);
    assert Plain(t[..a]);
    PlainHasNoAt(t[..a]);
    IndexOfAt(t, '@', a);
    AfterAtPlain(t, a, b);
    DotInside(t, a, b);
  }

  lemma PlainHasNoAt(s: string)
    requires Plain(s)
    ensures '@' !in s
  {
  }

  /** A dot between two plain parts keeps the whole plain. */
  lemma AfterAtPlain(t: string, a: int, b: int)
    requires 0 < a && a + 1 < b && b + 1 < |t| && SplitsAt(t, a, b)
    ensures Plain(t[a + 1..])
  {
    assert t[a + 1..] == t[a + 1..b] + ['.'] + t[b + 1..];
  }

  /** The dot of the domain sits strictly inside the text after the `@`. */
  lemma DotInside(t: string, a: int, b: int)
    requires 0 < a && a + 1 < b && b + 1 < |t| && t[b] == '.'
    ensures var rest := t[a + 1..]; |rest| >= 3 && '.' in rest[1..|rest| - 1]
  {
    var rest := t[a + 1..];
    assert rest[1..|rest| - 1][b - a - 2] == t[b];
  }

  /** The one-pass reading accepts exactly the language of the pattern. */
  lemma MatchesEmailIsPattern(t: string)
    ensures MatchesEmail(t) <==> EmailShaped(t)
  {
    if MatchesEmail(t) {
      MatchesEmailSound(t);
    }
    if EmailShaped(t) {
      MatchesEmailComplete(t);
    }
  }

  /** An accepted address holds exactly one `@`, with a plain non-empty part on each side. */
  lemma EmailOkOneAt(s: string)
    requires EmailOk(s)
    ensures var t := Trim(s);
      exists i :: 0 < i < |t| - 1 && t[i] == '@' && '@' !in t[..i] && '@' !in t[i + 1..]
  {
    var t := Trim(s);
    var i := IndexOf(t, '@');
    assert '@' !in t[i + 1..] by {
      assert Plain(t[i + 1..]);
    }
  }

  /** Space inside the address, or a missing `@` or dot, is refused. */
  lemma EmailRefusals(t: string)
    requires IsTrimmed(t)
    ensures '@' !in t ==> !EmailOk(t)
    ensures (exists k :: 0 <= k < |t| && IsJsSpace(t[k])) ==> !EmailOk(t)
    ensures '.' !in t ==> !EmailOk(t)
  {
    TrimOfTrimmed(t);
    if EmailOk(t) {
      MatchesEmailIsPattern(t);
      var i, j :| 0 < i && i + 1 < j && j + 1 < |t| && SplitsAt(t, i, j);
      forall k | 0 <= k < |t| ensures !IsJsSpace(t[k]) {
        if k < i {
          assert t[..i][k] == t[k];
        } else if i < k < j {
          assert t[i + 1..j][k - i - 1] == t[k];
        } else if j < k {
          assert t[j + 1..][k - j - 1] == t[k];
        }
      }
    }
  }

  // ---------------------------------------------------------------- candidates

  /** `p && (p.name || p.email)`: a directory entry that is there and has a name or an e-mail. */
  function Present(people: seq<Option<Person>>): (r: seq<Person>)
    ensures forall x :: x in r <==> Some(x) in people && (Truthy(x.name) || Truthy(x.email))
  {
    if people == [] then []
    else
      var rest := Present(people[1..]);
      assert forall o :: o in people <==> o == people[0] || o in people[1..];
      var p := people[0];
      if p.Some? && (Truthy(p.value.name) || Truthy(p.value.email)) then [p.value] + rest else rest
  }

  /** Not the row's current assignee: the trimmed names differ. */
  predicate NotAssignee(p: Person, currentAssignee: Option<string>) {
    Trim(p.name.GetOr("")) != Trim(currentAssignee.GetOr(""))
  }

  /** The lower-cased name or e-mail contains `q`. */
  predicate Mentions(p: Person, q: string) {
    Contains(Lower(p.name.GetOr("")), q) || Contains(Lower(p.email.GetOr("")), q)
  }

  /** `candidateList`: the directory without blank entries and the current assignee, narrowed by the query. */
  function CandidateList(people: seq<Option<Person>>, currentAssignee: Option<string>, query: string): (r: seq<Person>)
    ensures forall x :: x in r ==> NotAssignee(x, currentAssignee)
    ensures Lower(query) != "" ==> forall x :: x in r ==> Mentions(x, Lower(query))
  {
    var base := Filter(Present(people), (p: Person) => NotAssignee(p, currentAssignee));
    var q := Lower(query);
    if q == "" then base else Filter(base, (p: Person) => Mentions(p, q))
  }

  /**
   * A person is offered iff the directory lists them, with a name or an
   * e-mail, under another trimmed name than the current assignee's, and
   * (for a non-empty query) their lower-cased name or e-mail contains the
   * lower-cased query; the list is never longer than the directory.
   */
  lemma CandidateListMembers(people: seq<Option<Person>>, currentAssignee: Option<string>, query: string)
    ensures var r := CandidateList(people, currentAssignee, query);
      forall x :: x in r <==>
        Some(x) in people && (Truthy(x.name) || Truthy(x.email)) &&
        NotAssignee(x, currentAssignee) && (Lower(query) == "" || Mentions(x, Lower(query)))
    ensures |CandidateList(people, currentAssignee, query)| <= |people|
  {
    var base := Filter(Present(people), (p: Person) => NotAssignee(p, currentAssignee));
    PresentLength(people);
    if Lower(query) != "" {
      var q := Lower(query);
      assert forall x :: x in Filter(base, (p: Person) => Mentions(p, q)) <==> x in base && Mentions(x, q);
    }
  }

  lemma {:induction false} PresentLength(people: seq<Option<Person>>)
    ensures |Present(people)| <= |people|
  {
    if people != [] {
      PresentLength(people[1..]);
    }
  }

  // ---------------------------------------------------------------- the selection

  /** `prev.some(x => uniqKey(x) === k)`. */
  predicate HasKey(sel: seq<Person>, k: string) {
    exists i :: 0 <= i < |sel| && UniqKey(sel[i]) == k
  }

  /** `x => uniqKey(x) !== k`. */
  function KeyIsNot(k: string): Person -> bool {
    (x: Person) => UniqKey(x) != k
  }

  /** `removeChip(k)`: every selected entry keyed `k` dropped, the others kept in order. */
  function RemoveChip(sel: seq<Person>, k: string): (r: seq<Person>)
    ensures !HasKey(r, k)
  {
    var r := Filter(sel, KeyIsNot(k));
    assert forall i :: 0 <= i < |r| ==> r[i] in r;
    r
  }

  /** `toggle(person)`: drop every entry sharing the person's key if there is one, else append the person. */
  function Toggle(sel: seq<Person>, p: Person): (r: seq<Person>)
    ensures HasKey(r, UniqKey(p)) <==> !HasKey(sel, UniqKey(p))
  {
    var k := UniqKey(p);
    if HasKey(sel, k) then RemoveChip(sel, k)
    else
      assert (sel + [p])[|sel|] == p;
      sel + [p]
  }

  /** At most one selected entry per key: what toggling from an empty selection keeps. */
  predicate KeysDistinct(sel: seq<Person>) {
    forall i, j :: 0 <= i < j < |sel| ==> UniqKey(sel[i]) != UniqKey(sel[j])
  }

  /** Removing entries keeps the keys of the rest distinct. */
  lemma RemoveChipKeepsDistinct(sel: seq<Person>, k: string)
    requires KeysDistinct(sel)
    ensures KeysDistinct(RemoveChip(sel, k))
  {
    FilterKeepsDistinctBy(sel, KeyIsNot(k), UniqKey);
  }

  /**
   * What one toggle does: a held key is dropped entirely and every other
   * entry kept; a new key is appended as the person; and at most one entry
   * per key stays selected.
   */
  lemma ToggleMeaning(sel: seq<Person>, p: Person)
    ensures var r := Toggle(sel, p);
      (HasKey(sel, UniqKey(p)) ==>
        (!HasKey(r, UniqKey(p)) && forall x :: x in r <==> x in sel && UniqKey(x) != UniqKey(p))) &&
      (!HasKey(sel, UniqKey(p)) ==> r == sel + [p])
    ensures KeysDistinct(sel) ==> KeysDistinct(Toggle(sel, p))
  {
    if KeysDistinct(sel) {
      if HasKey(sel, UniqKey(p)) {
        RemoveChipKeepsDistinct(sel, UniqKey(p));
      } else {
        var r := sel + [p];
        forall i, j | 0 <= i < j < |r| ensures UniqKey(r[i]) != UniqKey(r[j]) {
          if j == |sel| {
            assert r[i] == sel[i];
          }
        }
      }
    }
  }

  /** Dropping a key no selected entry has, from the selection and a person with that key, leaves the selection. */
  lemma DropNewKey(sel: seq<Person>, p: Person)
    requires !HasKey(sel, UniqKey(p))
    ensures Filter(sel + [p], KeyIsNot(UniqKey(p))) == sel
  {
    var f := KeyIsNot(UniqKey(p));
    assert forall i :: 0 <= i < |sel| ==> f(sel[i]);
    FilterDropsLast(sel, p, f);
  }

  /** Toggling a person in and out again restores the selection. */
  lemma ToggleTwice(sel: seq<Person>, p: Person)
    requires !HasKey(sel, UniqKey(p))
    ensures Toggle(Toggle(sel, p), p) == sel
  {
    var k := UniqKey(p);
    var once := sel + [p];
    assert Toggle(sel, p) == once;
    assert HasKey(once, k) by {
      assert once[|sel|] == p;
    }
    assert Toggle(once, p) == Filter(once, KeyIsNot(k));
    DropNewKey(sel, p);
  }

  // ---------------------------------------------------------------- adding a person by hand

  /** The modal after "add": the selection, the alert shown (if any) and the two inputs. */
  datatype Custom = Custom(selected: seq<Person>, alert: Option<string>, customName: string, customEmail: string)

  const MISSING_ALERT: string := "Please enter both name and email."
  const INVALID_ALERT: string := "Please enter a valid email address."

  /** `addCustomPerson()`. */
  function AddCustomPerson(customName: string, customEmail: string, sel: seq<Person>): (c: Custom)
    ensures c.alert.Some? ==> c.selected == sel && c.customName == customName && c.customEmail == customEmail
    ensures c.alert.None? ==> Trim(customName) != "" && Trim(customEmail) != "" && c.customName == "" && c.customEmail == ""
  {
    var name := Trim(customName);
    var email := Trim(customEmail);
    if name == "" || email == "" then Custom(sel, Some(MISSING_ALERT), customName, customEmail)
    else if !EmailOk(email) then Custom(sel, Some(INVALID_ALERT), customName, customEmail)
    else Custom(Toggle(sel, FA.Person(Some(name), Some(email))), None, "", "")
  }

  /**
   * The selection moves only for a non-blank name and a valid e-mail, and
   * then by toggling the trimmed pair (keyed by the e-mail); otherwise the
   * right alert is shown and the inputs stay as typed.
   */
  lemma AddCustomPersonRules(customName: string, customEmail: string, sel: seq<Person>)
    ensures var c := AddCustomPerson(customName, customEmail, sel);
      (c.alert.None? <==> Trim(customName) != "" && Trim(customEmail) != "" && EmailOk(customEmail)) &&
      (c.alert.Some? ==> c.selected == sel && c.customName == customName && c.customEmail == customEmail) &&
      (c.alert == Some(MISSING_ALERT) <==> Trim(customName) == "" || Trim(customEmail) == "") &&
      (c.alert.None? ==>
        (c.customName == "" && c.customEmail == "" &&
         c.selected == Toggle(sel, FA.Person(Some(Trim(customName)), Some(Trim(customEmail)))) &&
         UniqKey(FA.Person(Some(Trim(customName)), Some(Trim(customEmail)))) == Trim(Lower(Trim(customEmail)))))
  {
    var email := Trim(customEmail);
    TrimIdempotent(customEmail);
    assert EmailOk(email) == EmailOk(customEmail);
    if email != "" {
      KeyedByEmail(Trim(customName), email);
    }
  }

  /** A person with a non-empty e-mail is keyed by it. */
  lemma KeyedByEmail(name: string, email: string)
    requires email != ""
    ensures UniqKey(FA.Person(Some(name), Some(email))) == Trim(Lower(email))
  {
    assert KeySource(FA.Person(Some(name), Some(email))) == email;
  }

  // ---------------------------------------------------------------- submitting

  /** `submitDisabled`. */
  predicate SubmitDisabled(kind: string, newDeadline: string, sel: seq<Person>) {
    (kind == "needTime" && newDeadline == "") || (kind == "reassign" && |sel| == 0)
  }

  /** `handleSubmit()`: the payload handed to `onSubmit`, `None` when an alert stops it. */
  function HandleSubmit(kind: string, remark: string, newDeadline: string, sel: seq<Person>): (r: Option<FA.Payload>)
    ensures r.None? <==> SubmitDisabled(kind, newDeadline, sel)
  {
    if kind == "reassign" then
      if |sel| == 0 then None
      else Some(FA.Payload(Some(Trim(remark)), None, Some(sel), None, None))
    else if kind == "needTime" then
      if newDeadline == "" then None
      else Some(FA.Payload(Some(Trim(remark)), Some(newDeadline), Some(sel), None, None))
    else if kind == "rejected" || kind == "completed" then
      Some(FA.Payload(Some(Trim(remark)), None, None, None, None))
    else
      Some(FA.Payload(None, None, None, None, None))
  }

  /**
   * A submission goes out exactly when the button is enabled, and carries
   * the trimmed remark, the new deadline only for Need Time, and the
   * selection only for Reassign and Need Time.
   */
  lemma HandleSubmitShape(kind: string, remark: string, newDeadline: string, sel: seq<Person>)
    ensures HandleSubmit(kind, remark, newDeadline, sel).None? <==> SubmitDisabled(kind, newDeadline, sel)
    ensures var r := HandleSubmit(kind, remark, newDeadline, sel);
      r.Some? ==>
        (r.value.remark.Some? <==> kind in {"reassign", "needTime", "rejected", "completed"}) &&
        (r.value.remark.Some? ==> r.value.remark.value == Trim(remark)) &&
        (r.value.deadline.Some? <==> kind == "needTime") &&
        (r.value.deadline.Some? ==> r.value.deadline.value == newDeadline) &&
        (r.value.assignList.Some? <==> kind == "reassign" || kind == "needTime") &&
        (r.value.assignList.Some? ==> r.value.assignList.value == sel) &&
        r.value.name.None? && r.value.email.None?
  {
  }

  /**
   * The people the dashboard hands the job over to, from a submitted
   * Reassign or Need Time payload, are exactly the selection, in order.
   */
  lemma SubmittedSelectionIsHandedOver(kind: string, remark: string, newDeadline: string, sel: seq<Person>)
    requires kind == "reassign" || kind == "needTime"
    requires !SubmitDisabled(kind, newDeadline, sel)
    ensures var r := HandleSubmit(kind, remark, newDeadline, sel);
      r.Some? && FA.Assignees(kind, r.value) == sel
  {
  }
}
