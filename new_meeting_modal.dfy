/**
 * The new-meeting form: the meeting names it offers, the attendee options
 * it shows for the search text, and the edits of the attendee selection
 * (toggle, remove by position, add, select all visible).
 */
module NewMeetingModal {
  import opened Common
  import opened Text
  import opened Seqs

  // ---------------------------------------------------------------- visible options

  /** `(n ?? '')` over a list: an absent entry reads as empty. */
  function Texts(options: seq<Option<string>>): (r: seq<string>)
    ensures |r| == |options|
    ensures forall i :: 0 <= i < |options| ==> r[i] == options[i].GetOr("")
  {
    seq(|options|, i requires 0 <= i < |options| => options[i].GetOr(""))
  }

  /** `n => !q || n.toLowerCase().includes(q)`. */
  function MatchesQuery(q: string): string -> bool {
    (n: string) => q == "" || Contains(Lower(n), q)
  }

  /** `visibleOptions`: the trimmed non-empty options containing the trimmed lower-cased search text, sorted by `le`. */
  function VisibleOptions(options: seq<Option<string>>, searchTerm: Option<string>, le: (string, string) -> bool): (r: seq<string>)
    ensures forall n :: n in r ==> n != ""
  {
    var f := Filter(NonEmpty(TrimAll(Texts(options))), MatchesQuery(SearchKey(searchTerm)));
    SortByMembers(f, le);
    SortBy(f, le)
  }

  /** `(searchTerm || '').trim().toLowerCase()`. */
  function SearchKey(searchTerm: Option<string>): string {
    Lower(Trim(searchTerm.GetOr("")))
  }

  /** `n` is the trimmed form of one of the options. */
  predicate TrimmedOption(options: seq<Option<string>>, n: string) {
    exists i :: 0 <= i < |options| && Trim(options[i].GetOr("")) == n
  }

  /** `n` is among the trimmed options iff it is the trimmed form of one of them. */
  lemma TrimmedOptionHas(options: seq<Option<string>>, n: string)
    ensures n in TrimAll(Texts(options)) <==> TrimmedOption(options, n)
  {
    var trimmed := TrimAll(Texts(options));
    if n in trimmed {
      var i :| 0 <= i < |trimmed| && trimmed[i] == n;
      assert Trim(options[i].GetOr("")) == n;
    }
    if TrimmedOption(options, n) {
      var i :| 0 <= i < |options| && Trim(options[i].GetOr("")) == n;
      assert trimmed[i] == n;
    }
  }

  /** The visible options are in `le` order. */
  lemma VisibleOptionsSorted(options: seq<Option<string>>, searchTerm: Option<string>, le: (string, string) -> bool)
    requires TotalPreorder(le)
    ensures Sorted(VisibleOptions(options, searchTerm, le), le)
  {
    SortBySorted(Filter(NonEmpty(TrimAll(Texts(options))), MatchesQuery(SearchKey(searchTerm))), le);
  }

  /**
   * An option is visible iff it is the trimmed form of a given option, not
   * empty, and (for a non-blank search) its lower-case form contains the
   * trimmed lower-cased search text.
   */
  lemma VisibleOptionsMembers(options: seq<Option<string>>, searchTerm: Option<string>, le: (string, string) -> bool)
    ensures forall n :: n in VisibleOptions(options, searchTerm, le) <==>
      n != "" && TrimmedOption(options, n) && (SearchKey(searchTerm) == "" || Contains(Lower(n), SearchKey(searchTerm)))
  {
    forall n {
      VisibleOption(options, searchTerm, le, n);
    }
  }

  /** One option is visible iff it passes the trimming, emptiness and search tests. */
  lemma VisibleOption(options: seq<Option<string>>, searchTerm: Option<string>, le: (string, string) -> bool, n: string)
    ensures n in VisibleOptions(options, searchTerm, le) <==>
      n != "" && TrimmedOption(options, n) && (SearchKey(searchTerm) == "" || Contains(Lower(n), SearchKey(searchTerm)))
  {
    var q := SearchKey(searchTerm);
    var kept := Filter(NonEmpty(TrimAll(Texts(options))), MatchesQuery(q));
    SortByHas(kept, le, n);
    KeptOption(options, q, n);
  }

  /** One option the search keeps, before sorting. */
  lemma KeptOption(options: seq<Option<string>>, q: string, n: string)
    ensures n in Filter(NonEmpty(TrimAll(Texts(options))), MatchesQuery(q)) <==>
      n != "" && TrimmedOption(options, n) && (q == "" || Contains(Lower(n), q))
  {
    TrimmedOptionHas(options, n);
  }

  // ---------------------------------------------------------------- meeting names

  /** A meeting row as the form reads it: both spellings of its name. */
  datatype MeetingRow = MeetingRow(meetingName: Option<string>, meetingNameAlt: Option<string>)

  /** `String(m.meetingName || m.meeting_name || '').trim()`. */
  function RowName(m: MeetingRow): string {
    Trim(if Truthy(m.meetingName) then m.meetingName.value
         else if Truthy(m.meetingNameAlt) then m.meetingNameAlt.value
         else "")
  }

  /** The trimmed names of the meeting rows, in row order. */
  function RowNames(meetings: seq<MeetingRow>): (r: seq<string>)
    ensures |r| == |meetings|
    ensures forall i :: 0 <= i < |meetings| ==> r[i] == RowName(meetings[i])
  {
    seq(|meetings|, i requires 0 <= i < |meetings| => RowName(meetings[i]))
  }

  /** The trimmed names already in the context; `None` is a value that is not an array. */
  function ContextNames(meetingNames: Option<seq<Option<string>>>): seq<string> {
    TrimAll(Texts(meetingNames.GetOr([])))
  }

  /**
   * The names `uniqueMeetingNames` collects before sorting: meeting rows
   * first, then context names, a blank name skipped and a name kept only
   * when its lower-case form is new (the empty form counts as seen).
   */
  function FirstNames(meetings: seq<MeetingRow>, meetingNames: Option<seq<Option<string>>>): seq<string> {
    Walk(RowNames(meetings) + ContextNames(meetingNames))
  }

  /** A name kept when it is not blank and its lower-case form is new. */
  function Walk(names: seq<string>): seq<string> {
    DistinctByFrom(names, Lower, {""})
  }

  /** One step of a collecting walk with the empty form counted as seen. */
  lemma CollectStep(names: seq<string>, i: int, seen: set<string>)
    requires 0 <= i < |names|
    ensures DistinctByFrom(names[i..], Lower, seen + {""}) ==
      if names[i] != "" && Lower(names[i]) !in seen
      then [names[i]] + DistinctByFrom(names[i + 1..], Lower, (seen + {Lower(names[i])}) + {""})
      else DistinctByFrom(names[i + 1..], Lower, seen + {""})
  {
    var rest := names[i..];
    DistinctByFromStep(rest, Lower, seen + {""});
    assert rest[0] == names[i] && rest[1..] == names[i + 1..];
    assert Lower(names[i]) == "" <==> names[i] == "";
    assert seen + {""} + {Lower(names[i])} == (seen + {Lower(names[i])}) + {""};
  }

  /** The lower-case forms of one more name. */
  lemma KeySetSnoc(names: seq<string>, i: int)
    requires 0 <= i < |names|
    ensures KeySet(names[..i + 1], Lower) == KeySet(names[..i], Lower) + {Lower(names[i])}
  {
    assert names[..i + 1] == names[..i] + [names[i]];
  }

  /** What one visit of the walk below keeps true: the pushed names and the seen forms, one name further. */
  lemma CollectAdvance(names: seq<string>, i: int, seen: set<string>, out: seq<string>, total: seq<string>)
    requires 0 <= i < |names|
    requires out + DistinctByFrom(names[i..], Lower, seen + {""}) == total
    ensures names[i] != "" && Lower(names[i]) !in seen ==>
      (out + [names[i]]) + DistinctByFrom(names[i + 1..], Lower, (seen + {Lower(names[i])}) + {""}) == total
    ensures !(names[i] != "" && Lower(names[i]) !in seen) ==>
      out + DistinctByFrom(names[i + 1..], Lower, seen + {""}) == total
  {
    var k := Lower(names[i]);
    DistinctByFromAdvance(names, Lower, i, seen + {""}, out, total);
    LowerEmpty(names[i]);
    assert (seen + {k}) + {""} == (seen + {""}) + {k};
  }

  /** The seen forms, one name further. */
  lemma SeenAdvance(names: seq<string>, i: int, seen0: set<string>, seen: set<string>)
    requires 0 <= i < |names|
    requires seen + {""} == seen0 + {""} + KeySet(names[..i], Lower)
    ensures names[i] != "" && Lower(names[i]) !in seen ==>
      (seen + {Lower(names[i])}) + {""} == seen0 + {""} + KeySet(names[..i + 1], Lower)
    ensures !(names[i] != "" && Lower(names[i]) !in seen) ==>
      seen + {""} == seen0 + {""} + KeySet(names[..i + 1], Lower)
  {
    KeySetSnoc(names, i);
    LowerEmpty(names[i]);
  }

  /**
   * One `forEach` of `uniqueMeetingNames`: each non-blank name whose
   * lower-case form is not in `seen` is pushed and its form marked seen.
   */
  method Collect(out0: seq<string>, seen0: set<string>, names: seq<string>) returns (out: seq<string>, seen: set<string>)
    ensures out == out0 + DistinctByFrom(names, Lower, seen0 + {""})
    ensures seen + {""} == seen0 + {""} + KeySet(names, Lower)
  {
    out, seen := out0, seen0;
    ghost var total := out0 + DistinctByFrom(names, Lower, seen0 + {""});
    var i := 0;
    assert names[..0] == [] && names[0..] == names;
    while i < |names|
      invariant i <= |names|
      invariant out + DistinctByFrom(names[i..], Lower, seen + {""}) == total
      invariant seen + {""} == seen0 + {""} + KeySet(names[..i], Lower)
    {
      out, seen := Visit(names, i, out, seen, seen0, total);
      i := i + 1;
    }
    assert names[..i] == names && names[i..] == [];
  }

  /** The body of the walk for `names[i]`: skipped when blank, pushed when its lower-case form is new. */
  method Visit(names: seq<string>, i: int, out0: seq<string>, seen0: set<string>, ghost seenAtStart: set<string>, ghost total: seq<string>)
    returns (out: seq<string>, seen: set<string>)
    requires 0 <= i < |names|
    requires out0 + DistinctByFrom(names[i..], Lower, seen0 + {""}) == total
    requires seen0 + {""} == seenAtStart + {""} + KeySet(names[..i], Lower)
    ensures out + DistinctByFrom(names[i + 1..], Lower, seen + {""}) == total
    ensures seen + {""} == seenAtStart + {""} + KeySet(names[..i + 1], Lower)
  {
    CollectAdvance(names, i, seen0, out0, total);
    SeenAdvance(names, i, seenAtStart, seen0);
    out, seen := out0, seen0;
    var v := names[i];
    if v != "" {
      var key := Lower(v);
      if key !in seen {
        seen := seen + {key};
        out := out + [v];
      }
    }
  }

  /** Both walks of `uniqueMeetingNames`, over the row names and then the context names. */
  method CollectBoth(rows: seq<string>, ctx: seq<string>) returns (out: seq<string>)
    ensures out == Walk(rows + ctx)
  {
    var seen;
    out, seen := Collect([], {}, rows);
    ghost var empty: set<string> := {};
    assert empty + {""} == {""};
    ghost var head := DistinctByFrom(rows, Lower, {""});
    assert out == head;
    ghost var seenRows := {""} + KeySet(rows, Lower);
    assert seen + {""} == seenRows;
    out, seen := Collect(out, seen, ctx);
    assert out == head + DistinctByFrom(ctx, Lower, seenRows);
    DistinctByFromAppend(rows, ctx, Lower, {""});
  }

  /** `uniqueMeetingNames`: the collected names, sorted by `le`. */
  method UniqueMeetingNames(meetings: seq<MeetingRow>, meetingNames: Option<seq<Option<string>>>, le: (string, string) -> bool)
    returns (r: seq<string>)
    ensures r == SortBy(FirstNames(meetings, meetingNames), le)
  {
    var out := CollectBoth(RowNames(meetings), ContextNames(meetingNames));
    r := SortBy(out, le);
  }

  /** Only the empty string has the empty lower-case form. */
  lemma LowerEmpty(n: string)
    ensures Lower(n) == "" <==> n == ""
  {
    assert |Lower(n)| == |n|;
  }

  /** The walk's names, sorted: in order, and no two equal ignoring case. */
  lemma WalkSortedDistinct(all: seq<string>, le: (string, string) -> bool)
    requires TotalPreorder(le)
    ensures var r := SortBy(Walk(all), le);
      Sorted(r, le) && forall i, j :: 0 <= i < j < |r| ==> Lower(r[i]) != Lower(r[j])
  {
    var f := Walk(all);
    SortBySorted(f, le);
    DistinctByPermutation(f, SortBy(f, le), Lower);
  }

  /** The walk's names are non-blank names it was given. */
  lemma WalkFromInput(all: seq<string>, le: (string, string) -> bool)
    ensures forall n :: n in SortBy(Walk(all), le) ==> n != "" && n in all
  {
    var f := Walk(all);
    SortByMembers(f, le);
    forall n | n in f ensures n != "" && n in all {
      var i :| 0 <= i < |f| && f[i] == n;
      LowerEmpty(n);
    }
  }

  /** Every non-blank name given is there in some casing. */
  lemma WalkCovers(all: seq<string>, le: (string, string) -> bool)
    ensures forall n :: n in all && n != "" ==> Lower(n) in KeySet(SortBy(Walk(all), le), Lower)
  {
    var f := Walk(all);
    var r := SortBy(f, le);
    SortByMembers(f, le);
    forall n | n in all && n != "" ensures Lower(n) in KeySet(r, Lower) {
      var i :| 0 <= i < |all| && all[i] == n;
      LowerEmpty(n);
      DistinctByFromCovers(all, Lower, {""}, i);
      var j :| 0 <= j < |f| && Lower(f[j]) == Lower(n);
      assert f[j] in r;
    }
  }

  /** A name whose lower-case form the rows carry is offered as a row spells it. */
  lemma WalkPrefersRows(rows: seq<string>, ctx: seq<string>, le: (string, string) -> bool)
    ensures forall n :: n in SortBy(Walk(rows + ctx), le) && Lower(n) in KeySet(rows, Lower) ==>
      n in rows
  {
    var f := Walk(rows + ctx);
    SortByMembers(f, le);
    DistinctByFromAppend(rows, ctx, Lower, {""});
    var head := DistinctByFrom(rows, Lower, {""});
    var tail := DistinctByFrom(ctx, Lower, {""} + KeySet(rows, Lower));
    assert f == head + tail;
    forall n | n in f && Lower(n) in KeySet(rows, Lower) ensures n in rows {
      assert n !in tail;
      var i :| 0 <= i < |head| && head[i] == n;
    }
  }

  /** The first non-blank spelling of each lower-case form is the one offered. */
  lemma WalkFirstCasing(all: seq<string>, le: (string, string) -> bool)
    ensures forall i :: 0 <= i < |all| && all[i] != "" && (forall k :: 0 <= k < i ==> Lower(all[k]) != Lower(all[i])) ==>
      all[i] in SortBy(Walk(all), le)
  {
    var f := Walk(all);
    SortByMembers(f, le);
    forall i | 0 <= i < |all| && all[i] != "" && (forall k :: 0 <= k < i ==> Lower(all[k]) != Lower(all[i]))
      ensures all[i] in SortBy(f, le)
    {
      LowerEmpty(all[i]);
      DistinctByFromFirst(all, Lower, {""}, i);
    }
  }

  /**
   * What the offered names promise: sorted; no two equal ignoring case;
   * every one a non-blank row or context name; every non-blank row or
   * context name there in some casing; a name offered in the casing it
   * first appears with; and a name a meeting row carries offered as a row
   * spells it, never as a context name spells it.
   */
  lemma UniqueMeetingNamesProperties(meetings: seq<MeetingRow>, meetingNames: Option<seq<Option<string>>>, le: (string, string) -> bool)
    requires TotalPreorder(le)
    ensures var rows := RowNames(meetings);
      var all := rows + ContextNames(meetingNames);
      var r := SortBy(FirstNames(meetings, meetingNames), le);
      Sorted(r, le) &&
      (forall i, j :: 0 <= i < j < |r| ==> Lower(r[i]) != Lower(r[j])) &&
      (forall n :: n in r ==> n != "" && n in all) &&
      (forall n :: n in all && n != "" ==> Lower(n) in KeySet(r, Lower)) &&
      (forall n :: n in r && Lower(n) in KeySet(rows, Lower) ==> n in rows) &&
      (forall i :: 0 <= i < |all| && all[i] != "" && (forall k :: 0 <= k < i ==> Lower(all[k]) != Lower(all[i])) ==>
        all[i] in r)
  {
    var rows := RowNames(meetings);
    var ctx := ContextNames(meetingNames);
    WalkSortedDistinct(rows + ctx, le);
    WalkFromInput(rows + ctx, le);
    WalkCovers(rows + ctx, le);
    WalkPrefersRows(rows, ctx, le);
    WalkFirstCasing(rows + ctx, le);
  }

  // ---------------------------------------------------------------- the attendee selection

  /** `handleAttendeeToggle(name)`: every occurrence removed if present, else appended. */
  function ToggleAttendee(prev: seq<string>, name: string): (r: seq<string>)
    ensures name in r <==> name !in prev
  {
    if name in prev then Filter(prev, (n: string) => n != name) else prev + [name]
  }

  /**
   * After a toggle the name is selected iff it was not; every other name
   * keeps its place in the selection; and toggling a new name twice
   * restores the selection.
   */
  lemma ToggleAttendeeMeaning(prev: seq<string>, name: string)
    ensures var r := ToggleAttendee(prev, name);
      (name in r <==> name !in prev) &&
      (forall n :: n != name ==> (n in r <==> n in prev)) &&
      (name !in prev ==> ToggleAttendee(r, name) == prev)
  {
    if name !in prev {
      var f := (n: string) => n != name;
      assert forall i :: 0 <= i < |prev| ==> f(prev[i]);
      FilterDropsLast(prev, name, f);
    }
  }

  /** `handleRemoveAttendee(index)`: the element at `index` dropped, the others kept in order. */
  function RemoveAttendee(prev: seq<string>, index: int): (r: seq<string>)
    ensures 0 <= index < |prev| ==> |r| == |prev| - 1
    ensures !(0 <= index < |prev|) ==> r == prev
    ensures 0 <= index < |prev| ==> forall i :: 0 <= i < |r| ==> r[i] == if i < index then prev[i] else prev[i + 1]
  {
    if 0 <= index < |prev| then prev[..index] + prev[index + 1..] else prev
  }

  /** `addAttendee(name)`: appended only when absent. */
  function AddAttendee(prev: seq<string>, name: string): (r: seq<string>)
    ensures name in r && prev <= r && |r| <= |prev| + 1
  {
    if name in prev then prev else prev + [name]
  }

  /** Adding selects the name, changes nothing else, and keeps a selection free of duplicates. */
  lemma AddAttendeeMeaning(prev: seq<string>, name: string)
    ensures var r := AddAttendee(prev, name);
      name in r && (forall n :: n in r <==> n in prev || n == name) &&
      (NoDuplicates(prev) ==> NoDuplicates(r)) &&
      (name in prev ==> r == prev)
  {
  }

  /** The "select all visible" box is checked. */
  predicate AllVisibleSelected(visible: seq<string>, attendees: seq<string>) {
    |visible| > 0 && forall i :: 0 <= i < |visible| ==> visible[i] in attendees
  }

  /** The box's `onChange`: checking adds the visible names, unchecking drops them. */
  function SelectAllVisible(prev: seq<string>, visible: seq<string>, checked: bool): (r: seq<string>)
    ensures checked ==> forall n :: n in prev || n in visible ==> n in r
    ensures !checked ==> forall n :: n in r <==> n in prev && n !in visible
  {
    if checked then Distinct(prev + visible) else Filter(prev, (n: string) => n !in visible)
  }

  /**
   * Checking keeps every selected name and adds every visible one, each
   * name once, after which the box reads checked (when something is
   * visible); unchecking drops exactly the visible names, after which it
   * reads unchecked.
   */
  lemma SelectAllVisibleMeaning(prev: seq<string>, visible: seq<string>)
    ensures var on := SelectAllVisible(prev, visible, true);
      NoDuplicates(on) && (forall n :: n in on <==> n in prev || n in visible) &&
      (|visible| > 0 ==> AllVisibleSelected(visible, on))
    ensures var off := SelectAllVisible(prev, visible, false);
      (forall n :: n in off <==> n in prev && n !in visible) && !AllVisibleSelected(visible, off)
  {
    var off := SelectAllVisible(prev, visible, false);
    if |visible| > 0 {
      assert visible[0] !in off;
    }
  }

  /** Checking the box twice is checking it once; a selection that already holds the visible names and no duplicates is left as it is. */
  lemma SelectAllVisibleIdempotent(prev: seq<string>, visible: seq<string>)
    ensures var on := SelectAllVisible(prev, visible, true);
      SelectAllVisible(on, visible, true) == on
  {
    var on := Distinct(prev + visible);
    DistinctOfDistinctSuper(on, visible);
  }

  /** Appending values already present to a sequence without duplicates and deduplicating gives the sequence back. */
  lemma {:induction false} DistinctOfDistinctSuper(s: seq<string>, extra: seq<string>)
    requires NoDuplicates(s)
    requires forall x :: x in extra ==> x in s
    ensures Distinct(s + extra) == s
  {
    if extra == [] {
      assert s + extra == s;
      DistinctOfNoDuplicates(s);
    } else {
      var init := extra[..|extra| - 1];
      var x := extra[|extra| - 1];
      assert s + extra == (s + init) + [x];
      DistinctOfDistinctSuper(s, init);
      DistinctSnoc(s + init, x);
    }
  }

  /** A sequence without duplicates is its own `Distinct`. */
  lemma {:induction false} DistinctOfNoDuplicates(s: seq<string>)
    requires NoDuplicates(s)
    ensures Distinct(s) == s
  {
    if s != [] {
      var init := s[..|s| - 1];
      DistinctOfNoDuplicates(init);
      DistinctSnoc(init, s[|s| - 1]);
      assert init + [s[|s| - 1]] == s;
    }
  }
}
