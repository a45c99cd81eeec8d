/**
 * The meeting page: attendee names as the page shows and suggests them, the
 * minutes form's expansion of its rows into one MoM entry per assignee, and
 * the guard on adding an attendee.
 */
module MeetingDetails {
  import opened Common
  import opened Text
  import opened Seqs

  // ---------------------------------------------------------------- names

  /**
   * The part of an e-mail before its first `@` (`split('@')[0]`): all of it
   * when there is no `@`, never containing one.
   */
  function LocalPart(e: string): (h: string)
    ensures '@' !in h && |h| <= |e| && h == e[..|h|]
    ensures |h| < |e| ==> e[|h|] == '@'
  {
    SplitHead(e, '@');
    Split(e, '@')[0]
  }

  /** The name shown for a user whose trimmed name is `n` and trimmed e-mail is `e`. */
  function ShownName(n: string, e: string): (r: string)
    ensures n != "" ==> r == n
    ensures n == "" ==> '@' !in r && |r| <= |e|
  {
    if n != "" then n else if e != "" then LocalPart(e) else ""
  }

  /** `normalizeUserName`: the trimmed name, else the local part of the trimmed e-mail, else empty. */
  function NormalizeUserName(name: Option<string>, email: Option<string>): string {
    ShownName(Trim(name.GetOr("")), Trim(email.GetOr("")))
  }

  /**
   * A user with a name is shown by it; one without, by the whole of the
   * e-mail up to its first `@` (so never containing one), and is shown as
   * empty only when the name is blank and the e-mail is blank or starts
   * with `@`.
   */
  lemma ShownNameMeaning(n: string, e: string)
    ensures var r := ShownName(n, e);
      (n != "" ==> r == n) &&
      (n == "" ==> '@' !in r && |r| <= |e| && r == e[..|r|] && (|r| < |e| ==> e[|r|] == '@'))
    ensures ShownName(n, e) == "" <==> n == "" && (e == "" || e[0] == '@')
  {
  }

  /** The lower-case form of every name: the `seen` set the page builds. */
  function LowerKeys(names: seq<string>): set<string> {
    set n | n in names :: Lower(n)
  }

  /**
   * The extra names `mergeUnique` appends: left to right, a name is kept when
   * its lower-case form is neither empty nor seen, and is then marked seen.
   */
  function FreshNames(base: seq<string>, extra: seq<string>): seq<string> {
    DistinctByFrom(extra, Lower, LowerKeys(base) + {""})
  }

  /**
   * `mergeUnique(base, extra)`: the base names, then the fresh extra ones,
   * sorted by `le`, the case-insensitive `localeCompare`.
   */
  method MergeUnique(base: seq<string>, extra: seq<string>, le: (string, string) -> bool) returns (r: seq<string>)
    ensures r == SortBy(base + FreshNames(base, extra), le)
  {
    var out := AppendFresh(base, extra);
    r := SortBy(out, le);
  }

  /** The walk of `mergeUnique` before its sort: a `seen` set of lower-case names, and the fresh names pushed. */
  method AppendFresh(base: seq<string>, extra: seq<string>) returns (out: seq<string>)
    ensures out == base + FreshNames(base, extra)
  {
    var seen := LowerKeys(base);
    out := base;
    ghost var added := [];
    var i := 0;
    while i < |extra|
      invariant i <= |extra|
      invariant out == base + added
      invariant added + DistinctByFrom(extra[i..], Lower, seen + {""}) == FreshNames(base, extra)
    {
      var n := extra[i];
      var key := Lower(n);
      FreshStep(extra, i, seen);
      if key != "" && key !in seen {
        seen := seen + {key};
        out := out + [n];
        added := added + [n];
      }
      i := i + 1;
    }
    assert added == FreshNames(base, extra);
  }

  /** One step of the `mergeUnique` walk, with the empty key counted as seen. */
  lemma FreshStep(extra: seq<string>, i: int, seen: set<string>)
    requires 0 <= i < |extra|
    ensures DistinctByFrom(extra[i..], Lower, seen + {""}) ==
      if Lower(extra[i]) != "" && Lower(extra[i]) !in seen
      then [extra[i]] + DistinctByFrom(extra[i + 1..], Lower, (seen + {Lower(extra[i])}) + {""})
      else DistinctByFrom(extra[i + 1..], Lower, seen + {""})
  {
    var rest := extra[i..];
    DistinctByFromStep(rest, Lower, seen + {""});
    assert rest[0] == extra[i] && rest[1..] == extra[i + 1..];
    assert seen + {""} + {Lower(extra[i])} == (seen + {Lower(extra[i])}) + {""};
  }

  /**
   * What `mergeUnique` promises: every base name stays, the names added come
   * from `extra` with a new non-empty lower-case form each, no extra name is
   * lost unless its lower-case form was already there (or empty), and the
   * result is sorted.
   */
  lemma MergeUniqueProperties(base: seq<string>, extra: seq<string>, le: (string, string) -> bool)
    requires TotalPreorder(le)
    ensures var r := SortBy(base + FreshNames(base, extra), le);
      Sorted(r, le) &&
      (forall n :: n in base ==> n in r) &&
      (forall n :: n in r ==> n in base || n in extra) &&
      (forall n :: n in extra && Lower(n) != "" ==> Lower(n) in LowerKeys(r))
    ensures var f := FreshNames(base, extra);
      forall i :: 0 <= i < |f| ==> Lower(f[i]) != "" && Lower(f[i]) !in LowerKeys(base)
  {
    var f := FreshNames(base, extra);
    var r := SortBy(base + f, le);
    SortBySorted(base + f, le);
    SortByMembers(base + f, le);
    assert forall n :: n in r <==> n in base || n in f;
    FreshCovers(base, extra, r);
  }

  /** Any list holding the base and the fresh names covers the lower-case form of every extra name. */
  lemma FreshCovers(base: seq<string>, extra: seq<string>, r: seq<string>)
    requires forall n :: n in r <==> n in base || n in FreshNames(base, extra)
    ensures forall n :: n in extra && Lower(n) != "" ==> Lower(n) in LowerKeys(r)
  {
    var f := FreshNames(base, extra);
    forall n | n in extra && Lower(n) != "" ensures Lower(n) in LowerKeys(r) {
      if Lower(n) in LowerKeys(base) {
        var b :| b in base && Lower(b) == Lower(n);
        LowerIn(b, r);
      } else {
        var i :| 0 <= i < |extra| && extra[i] == n;
        DistinctByFromCovers(extra, Lower, LowerKeys(base) + {""}, i);
        var j :| 0 <= j < |f| && Lower(f[j]) == Lower(n);
        LowerIn(f[j], r);
      }
    }
  }

  lemma LowerIn(x: string, r: seq<string>)
    requires x in r
    ensures Lower(x) in LowerKeys(r)
  {
  }

  // ---------------------------------------------------------------- attendee lists

  /** A value read from a meeting's attendee field: an array, a string, or anything else. */
  datatype NameList = List(items: seq<string>) | Csv(text: string) | Neither

  /** `splitToArray`. */
  function SplitToArray(v: NameList): (r: seq<string>)
    ensures v.Csv? ==> forall n :: n in r ==> n != ""
    ensures v.Neither? ==> r == []
  {
    match v
    case List(items) => items
    case Csv(text) => NonEmpty(TrimAll(Split(text, ',')))
    case Neither => []
  }

  /** From a string, every piece is non-empty, trimmed and free of commas. */
  lemma SplitPieces(text: string)
    ensures forall n :: n in SplitToArray(Csv(text)) ==> n != "" && IsTrimmed(n) && ',' !in n
  {
    var parts := Split(text, ',');
    assert SplitToArray(Csv(text)) == NonEmpty(TrimAll(parts));
    CleanedTrimmed(parts);
    forall n | n in NonEmpty(TrimAll(parts)) ensures ',' !in n {
      TrimmedNonEmpty(parts, n);
      var i :| 0 <= i < |parts| && n == Trim(parts[i]);
      TrimKeepsOut(parts[i], ',');
    }
  }

  /** Keeping the non-empty strings of a list with none empty keeps all of it. */
  lemma {:induction false} NonEmptyAll(parts: seq<string>)
    requires forall i :: 0 <= i < |parts| ==> parts[i] != ""
    ensures NonEmpty(parts) == parts
  {
    if parts != [] {
      NonEmptyAll(parts[1..]);
    }
  }

  /** Names joined with `", "`, as the back end stores them, split back into the same names. */
  lemma SplitToArrayRoundTrip(names: seq<string>)
    requires |names| >= 1
    requires forall i :: 0 <= i < |names| ==> names[i] != "" && IsTrimmed(names[i]) && ',' !in names[i]
    ensures SplitToArray(Csv(Join(names, ", "))) == names
  {
    SplitJoinRoundTrip(names);
    NonEmptyAll(names);
  }

  // ---------------------------------------------------------------- suggestions

  /** A name not already among the attendees, compared case-insensitively. */
  predicate NotAttending(n: string, attendees: seq<string>) {
    Lower(n) !in LowerKeys(attendees)
  }

  /** The names `filteredSuggestions` may offer for the query `q` (already trimmed and lower-cased). */
  function Matches(all: seq<string>, attendees: seq<string>, q: string): seq<string> {
    var base := Filter(all, (n: string) => NotAttending(n, attendees));
    if q != "" then Filter(base, (n: string) => Contains(Lower(n), q)) else base
  }

  /** `filteredSuggestions`: the first eight matches of the trimmed, lower-cased query. */
  function Suggestions(query: string, all: seq<string>, attendees: seq<string>): (r: seq<string>)
    ensures |r| <= 8
    ensures forall n :: n in r ==> n in all && NotAttending(n, attendees)
  {
    var m := Matches(all, attendees, Lower(Trim(query)));
    var r := Take(m, 8);
    assert forall n :: n in r ==> n in m;
    r
  }

  /** The matches are exactly the known names not attending whose lower-case form contains `q`. */
  lemma MatchesMeaning(all: seq<string>, attendees: seq<string>, q: string)
    ensures forall n :: n in Matches(all, attendees, q) <==> n in all && NotAttending(n, attendees) && Contains(Lower(n), q)
  {
    if q == "" {
      forall n ensures Contains(Lower(n), q) {
        ContainsEmpty(Lower(n));
      }
    }
  }

  /**
   * At most eight names are offered, each a known name not already
   * attending whose lower-case form contains the query; when fewer than
   * eight are offered, every such name is.
   */
  lemma SuggestionsProperties(query: string, all: seq<string>, attendees: seq<string>)
    ensures var r := Suggestions(query, all, attendees);
      |r| <= 8 &&
      forall n :: n in r ==> n in all && NotAttending(n, attendees) && Contains(Lower(n), Lower(Trim(query)))
    ensures var r := Suggestions(query, all, attendees);
      |r| < 8 ==>
        forall n :: n in all && NotAttending(n, attendees) && Contains(Lower(n), Lower(Trim(query))) ==> n in r
  {
    var q := Lower(Trim(query));
    var m := Matches(all, attendees, q);
    MatchesMeaning(all, attendees, q);
    TakeWithin(m, 8);
    assert Suggestions(query, all, attendees) == Take(m, 8);
  }

  // ---------------------------------------------------------------- submitting the minutes

  /** The option that assigns a row to every attendee. */
  const ALL_OPTION: string := "__ALL__"

  /**
   * A row of the minutes form: the names picked (`None` when `names` is not
   * an array), the single legacy `name`, and the row's fields.
   */
  datatype DraftRow = DraftRow(
    names: Option<seq<string>>, name: Option<string>,
    desc: string, deadline: string, remark: string, assignedBy: string, category: string)

  /** One MoM entry submitted. */
  datatype Entry = Entry(name: string, job: string, deadline: string, remark: string, assignedBy: string, category: string)

  /** The cleaned attendee list: trimmed, non-empty, each once, in first-seen order. */
  function People(attendees: seq<string>): (r: seq<string>)
    ensures NoDuplicates(r)
    ensures forall n :: n in r ==> n != ""
  {
    Distinct(NonEmpty(TrimAll(attendees)))
  }

  /** `picked`: the names array, else the legacy name alone when it is set, else nobody. */
  function Picked(row: DraftRow): seq<string> {
    if row.names.Some? then row.names.value
    else if Truthy(row.name) then [row.name.value]
    else []
  }

  /** `targets`: everybody when the ALL option is picked, else the picked names, trimmed, without the empty ones. */
  function Targets(row: DraftRow, people: seq<string>): seq<string> {
    var picked := Picked(row);
    if ALL_OPTION in picked then people else NonEmpty(TrimAll(picked))
  }

  /** The entry for one target of a row. */
  function EntryFor(row: DraftRow, person: string): Entry {
    Entry(person, row.desc, row.deadline, row.remark, row.assignedBy, row.category)
  }

  /** The entries for a list of targets, one per target, in target order. */
  function EntriesFor(row: DraftRow, ts: seq<string>): (es: seq<Entry>)
    ensures |es| == |ts|
    ensures forall i :: 0 <= i < |es| ==> es[i] == EntryFor(row, ts[i])
  {
    seq(|ts|, i requires 0 <= i < |ts| => EntryFor(row, ts[i]))
  }

  /** The entries of one row. */
  function RowEntries(row: DraftRow, people: seq<string>): seq<Entry> {
    EntriesFor(row, Targets(row, people))
  }

  /** `expanded`: every row's entries, row by row. */
  function Expanded(rows: seq<DraftRow>, people: seq<string>): seq<Entry> {
    if rows == [] then [] else Expanded(rows[..|rows| - 1], people) + RowEntries(rows[|rows| - 1], people)
  }

  /** The entries for the targets appended to `expanded`. */
  method PushEntries(expanded: seq<Entry>, row: DraftRow, ts: seq<string>) returns (out: seq<Entry>)
    ensures out == expanded + EntriesFor(row, ts)
  {
    out := expanded;
    var k := 0;
    while k < |ts|
      invariant k <= |ts|
      invariant out == expanded + EntriesFor(row, ts)[..k]
    {
      PrefixSnoc(EntriesFor(row, ts), k);
      out := out + [EntryFor(row, ts[k])];
      k := k + 1;
    }
  }

  /**
   * `handleSubmit`'s list of entries: the rows expanded into entries, then
   * each entry kept only the first time it occurs.
   */
  method SubmittedEntries(rows: seq<DraftRow>, attendees: seq<string>) returns (formatted: seq<Entry>)
    ensures formatted == Distinct(Expanded(rows, People(attendees)))
  {
    var people := People(attendees);
    var expanded := [];
    var n := 0;
    while n < |rows|
      invariant n <= |rows|
      invariant expanded == Expanded(rows[..n], people)
    {
      PrefixSnoc(rows, n);
      assert rows[..n + 1][..n] == rows[..n];
      expanded := PushEntries(expanded, rows[n], Targets(rows[n], people));
      n := n + 1;
    }
    assert rows[..n] == rows;
    formatted := DedupeEntries(expanded);
  }

  /** The dedupe walk of `handleSubmit`: an entry is kept unless an equal one was kept before. */
  method DedupeEntries(expanded: seq<Entry>) returns (formatted: seq<Entry>)
    ensures formatted == Distinct(expanded)
  {
    var seen: set<Entry> := {};
    formatted := [];
    var i := 0;
    while i < |expanded|
      invariant i <= |expanded|
      invariant formatted == Distinct(expanded[..i])
      invariant forall e :: e in seen <==> e in formatted
    {
      var e := expanded[i];
      PrefixSnoc(expanded, i);
      DistinctSnoc(expanded[..i], e);
      if e !in seen {
        seen := seen + {e};
        formatted := formatted + [e];
      }
      i := i + 1;
    }
    assert expanded[..i] == expanded;
  }

  /** Every entry of a row carries the row's job, deadline, remark, assigner and category. */
  lemma RowEntriesFields(row: DraftRow, people: seq<string>)
    ensures forall e :: e in RowEntries(row, people) ==>
      e.job == row.desc && e.deadline == row.deadline && e.remark == row.remark &&
      e.assignedBy == row.assignedBy && e.category == row.category
  {
    var es := RowEntries(row, people);
    forall e | e in es ensures e.job == row.desc && e.category == row.category {
      var k :| 0 <= k < |es| && es[k] == e;
    }
  }

  /**
   * A row with the ALL option gives one entry per cleaned attendee: no two
   * for the same person, every non-blank attendee covered under the trimmed
   * name, and nobody else.
   */
  lemma AllRowEntries(row: DraftRow, attendees: seq<string>)
    requires ALL_OPTION in Picked(row)
    ensures var es := RowEntries(row, People(attendees));
      (forall i, j :: 0 <= i < j < |es| ==> es[i].name != es[j].name) &&
      (forall p :: p in attendees && Trim(p) != "" ==> exists e :: e in es && e.name == Trim(p)) &&
      (forall e :: e in es ==> e.name != "" && exists p :: p in attendees && Trim(p) == e.name)
  {
    var people := People(attendees);
    AllRowCovers(row, attendees, people);
    AllRowOnlyAttendees(row, attendees, people);
  }

  lemma AllRowCovers(row: DraftRow, attendees: seq<string>, people: seq<string>)
    requires ALL_OPTION in Picked(row) && people == People(attendees)
    ensures var es := RowEntries(row, people);
      forall p :: p in attendees && Trim(p) != "" ==> exists e :: e in es && e.name == Trim(p)
  {
    var es := RowEntries(row, people);
    assert es == EntriesFor(row, people);
    forall p | p in attendees && Trim(p) != "" ensures exists e :: e in es && e.name == Trim(p) {
      PeopleHas(attendees, p);
      EntriesCover(row, people, Trim(p));
    }
  }

  /** A non-blank attendee is among the cleaned attendees under the trimmed name. */
  lemma PeopleHas(attendees: seq<string>, p: string)
    requires p in attendees && Trim(p) != ""
    ensures Trim(p) in People(attendees)
  {
    var i :| 0 <= i < |attendees| && attendees[i] == p;
    TrimmedNonEmpty(attendees, Trim(p));
  }

  /** Every target gets an entry under its name. */
  lemma EntriesCover(row: DraftRow, ts: seq<string>, x: string)
    requires x in ts
    ensures exists e :: e in EntriesFor(row, ts) && e.name == x
  {
    var k :| 0 <= k < |ts| && ts[k] == x;
    assert EntriesFor(row, ts)[k].name == x;
  }

  lemma AllRowOnlyAttendees(row: DraftRow, attendees: seq<string>, people: seq<string>)
    requires ALL_OPTION in Picked(row) && people == People(attendees)
    ensures var es := RowEntries(row, people);
      (forall i, j :: 0 <= i < j < |es| ==> es[i].name != es[j].name) &&
      (forall e :: e in es ==> e.name != "" && exists p :: p in attendees && Trim(p) == e.name)
  {
    assert RowEntries(row, people) == EntriesFor(row, people);
    EntriesNames(row, people, TrimAll(attendees));
  }

  /** Entries for distinct targets drawn from a list of trimmed names go to distinct people named there. */
  lemma EntriesNames(row: DraftRow, ts: seq<string>, trimmed: seq<string>)
    requires NoDuplicates(ts)
    requires forall x :: x in ts ==> x in trimmed && x != ""
    ensures var es := EntriesFor(row, ts);
      (forall i, j :: 0 <= i < j < |es| ==> es[i].name != es[j].name) &&
      (forall e :: e in es ==> e.name != "" && e.name in trimmed)
  {
    var es := EntriesFor(row, ts);
    forall e | e in es ensures e.name != "" && e.name in trimmed {
      var k :| 0 <= k < |es| && es[k] == e;
      assert ts[k] in ts;
    }
  }

  /**
   * Without the ALL option, every non-blank picked name gets an entry under
   * its trimmed form, and the entries go to those names only, never to a
   * blank one.
   */
  lemma PickedRowEntries(row: DraftRow, people: seq<string>)
    requires ALL_OPTION !in Picked(row)
    ensures forall p :: p in Picked(row) && Trim(p) != "" ==>
      exists e :: e in RowEntries(row, people) && e.name == Trim(p)
    ensures forall e :: e in RowEntries(row, people) ==>
      e.name != "" && exists p :: p in Picked(row) && Trim(p) == e.name
  {
    PickedRowCovers(row, people);
    PickedRowOnlyPicked(row, people);
  }

  lemma PickedRowCovers(row: DraftRow, people: seq<string>)
    requires ALL_OPTION !in Picked(row)
    ensures forall p :: p in Picked(row) && Trim(p) != "" ==>
      exists e :: e in RowEntries(row, people) && e.name == Trim(p)
  {
    var picked := Picked(row);
    var ts := NonEmpty(TrimAll(picked));
    assert RowEntries(row, people) == EntriesFor(row, ts);
    forall p | p in picked && Trim(p) != "" ensures exists e :: e in EntriesFor(row, ts) && e.name == Trim(p) {
      PickedHas(picked, p);
      EntriesCover(row, ts, Trim(p));
    }
  }

  /** A non-blank picked name is among the cleaned picks under the trimmed name. */
  lemma PickedHas(picked: seq<string>, p: string)
    requires p in picked && Trim(p) != ""
    ensures Trim(p) in NonEmpty(TrimAll(picked))
  {
    var i :| 0 <= i < |picked| && picked[i] == p;
    TrimmedNonEmpty(picked, Trim(p));
  }

  lemma PickedRowOnlyPicked(row: DraftRow, people: seq<string>)
    requires ALL_OPTION !in Picked(row)
    ensures forall e :: e in RowEntries(row, people) ==>
      e.name != "" && exists p :: p in Picked(row) && Trim(p) == e.name
  {
    var picked := Picked(row);
    var ts := NonEmpty(TrimAll(picked));
    var es := RowEntries(row, people);
    assert es == EntriesFor(row, ts);
    forall e | e in es ensures e.name != "" && exists p :: p in picked && Trim(p) == e.name {
      var k :| 0 <= k < |es| && es[k] == e;
      assert ts[k] in TrimAll(picked);
      var i :| 0 <= i < |picked| && TrimAll(picked)[i] == ts[k];
      assert picked[i] in picked;
    }
  }


  /** The submitted list holds every expanded entry exactly once. */
  lemma SubmittedProperties(rows: seq<DraftRow>, attendees: seq<string>)
    ensures var f := Distinct(Expanded(rows, People(attendees)));
      NoDuplicates(f) && forall e :: e in f <==> e in Expanded(rows, People(attendees))
  {
  }

  /** The submission key as written: the six fields joined with `|`. */
  function EntryKeyAsWritten(e: Entry): string {
    Join([e.name, e.job, e.deadline, e.remark, e.assignedBy, e.category], "|")
  }

  /** The dedupe as written: an entry is dropped when its joined key was seen. */
  function DedupeAsWritten(expanded: seq<Entry>): seq<Entry> {
    DistinctByFrom(expanded, EntryKeyAsWritten, {})
  }

  /**
   * Two different assignments whose fields only differ in where a `|` falls
   * share a joined key, so the written dedupe drops the second one.
   */
  lemma DedupeAsWrittenDropsEntry()
    ensures var e1 := Entry("a|b", "c", "", "", "", "");
      var e2 := Entry("a", "b|c", "", "", "", "");
      e1 != e2 && DedupeAsWritten([e1, e2]) == [e1] && Distinct([e1, e2]) == [e1, e2]
  {
    var e1 := Entry("a|b", "c", "", "", "", "");
    var e2 := Entry("a", "b|c", "", "", "", "");
    assert e1.name != e2.name;
    assert EntryKeyAsWritten(e1) == EntryKeyAsWritten(e2) by {
      JoinSix("a|b", "c");
      JoinSix("a", "b|c");
      assert "a|b" + "|" + "c" == "a" + "|" + "b|c";
    }
    SameKeyDropped(e1, e2, EntryKeyAsWritten);
    DistinctPair(e1, e2);
  }

  /** A key whose last four fields are empty. */
  lemma JoinSix(a: string, b: string)
    ensures Join([a, b, "", "", "", ""], "|") == a + "|" + b + "||||"
  {
    var s := [a, b, "", "", "", ""];
    assert Join(s[5..], "|") == "";
    assert Join(s[4..], "|") == "" + "|" + Join(s[5..], "|");
    assert Join(s[3..], "|") == "" + "|" + Join(s[4..], "|");
    assert Join(s[2..], "|") == "" + "|" + Join(s[3..], "|");
    assert Join(s[1..], "|") == b + "|" + Join(s[2..], "|");
  }

  // ---------------------------------------------------------------- adding an attendee

  /** What adding an attendee leads to: the name posted (if any), the new list, and whether the input is cleared. */
  datatype AddOutcome = AddOutcome(posted: Option<string>, attendees: seq<string>, clearInput: bool)

  /** The list updater run once the name is saved: append unless a case-insensitive equal is there. */
  function AppendIfAbsent(prev: seq<string>, t: string): seq<string> {
    if Lower(t) in LowerKeys(prev) then prev else prev + [t]
  }

  /**
   * `addAttendee(nameOverride)`: the trimmed override (else the input) is
   * refused when blank or already attending in any casing; otherwise it is
   * posted, and when the back end accepts it (`saved`) it joins the list.
   */
  function AddAttendee(attendees: seq<string>, nameOverride: Option<string>, input: string, saved: bool): (o: AddOutcome)
    ensures o.posted.Some? ==> o.posted.value == Trim(nameOverride.GetOr(input)) && o.posted.value != ""
    ensures o.attendees == attendees || (saved && o.posted.Some? && o.attendees == attendees + [o.posted.value])
  {
    var t := Trim(nameOverride.GetOr(input));
    if t == "" || Lower(t) in LowerKeys(attendees) then AddOutcome(None, attendees, false)
    else if !saved then AddOutcome(Some(t), attendees, false)
    else AddOutcome(Some(t), AppendIfAbsent(attendees, t), !Truthy(nameOverride))
  }

  /** What `addAttendee` is called with: a suggestion's name, or the click event the Add button passes. */
  datatype AddArg = Suggested(name: string) | ClickEvent

  /**
   * `addAttendee` as the page calls it. A suggestion passes its name; the
   * Add button is wired as `onClick={addAttendee}`, so it passes the click
   * event, `(event ?? newAttendee).trim` is not a function, and the call
   * throws before posting anything.
   */
  function AddAttendeeAsCalled(attendees: seq<string>, arg: AddArg, input: string, saved: bool): (o: AddOutcome)
    ensures arg.ClickEvent? ==> o.posted == None && o.attendees == attendees && !o.clearInput
  {
    match arg
    case Suggested(n) => AddAttendee(attendees, Some(n), input, saved)
    case ClickEvent => AddOutcome(None, attendees, false)
  }

  /**
   * The Add button adds nothing, whatever is typed, while the call it was
   * evidently meant to make, `addAttendee()` with no override, posts a new
   * typed name, appends it once saved and clears the input.
   */
  lemma AddButtonAddsNothing(attendees: seq<string>, input: string)
    requires Trim(input) != ""
    requires forall n :: n in attendees ==> Lower(n) != Lower(Trim(input))
    ensures AddAttendeeAsCalled(attendees, ClickEvent, input, true) == AddOutcome(None, attendees, false)
    ensures AddAttendee(attendees, None, input, true) == AddOutcome(Some(Trim(input)), attendees + [Trim(input)], true)
  {
    AddAttendeeProperties(attendees, None, input, true);
  }

  /** No two names the same in any casing. */
  predicate CaseDistinct(names: seq<string>) {
    forall i, j :: 0 <= i < j < |names| ==> Lower(names[i]) != Lower(names[j])
  }

  /**
   * A blank name or one already attending (in any casing) changes nothing and
   * posts nothing; a new one is posted trimmed and, once saved, appended
   * exactly once, keeping the list free of case-insensitive repeats.
   */
  lemma AddAttendeeProperties(attendees: seq<string>, nameOverride: Option<string>, input: string, saved: bool)
    ensures var t := Trim(nameOverride.GetOr(input));
      var o := AddAttendee(attendees, nameOverride, input, saved);
      (t == "" || (exists n :: n in attendees && Lower(n) == Lower(t))) ==> o == AddOutcome(None, attendees, false)
    ensures var t := Trim(nameOverride.GetOr(input));
      var o := AddAttendee(attendees, nameOverride, input, saved);
      t != "" && (forall n :: n in attendees ==> Lower(n) != Lower(t)) ==>
        o.posted == Some(t) && o.attendees == (if saved then attendees + [t] else attendees)
    ensures CaseDistinct(attendees) ==> CaseDistinct(AddAttendee(attendees, nameOverride, input, saved).attendees)
  {
    var t := Trim(nameOverride.GetOr(input));
    var o := AddAttendee(attendees, nameOverride, input, saved);
    if CaseDistinct(attendees) && o.attendees != attendees {
      var r := o.attendees;
      assert r == attendees + [t];
      forall i, j | 0 <= i < j < |r| ensures Lower(r[i]) != Lower(r[j]) {
        if j == |attendees| {
          assert r[i] in attendees;
        }
      }
    }
  }
}
