/**
 * The dashboard's search box: a query such as `m:standup "name:Ann Lee" ddl:2024-01..2024-02 urgent`
 * is split into tokens, and each token either fills a field filter, sets a
 * date range, or becomes a free-text term.
 */
module UnifiedQuery {
  import opened Common
  import opened Text

  // ---------------------------------------------------------------- tokens

  /** A token the first alternative of `/"[^"]*"|\S+/g` matched: a quote, no quote, a quote. */
  predicate Quoted(t: string) {
    |t| >= 2 && t[0] == '"' && t[|t| - 1] == '"' && '"' !in t[1..|t| - 1]
  }

  predicate NoSpace(t: string) {
    forall i :: 0 <= i < |t| ==> !IsJsSpace(t[i])
  }

  /** The length of the leading run of non-space characters: what `\S+` matches. */
  function NonSpaceRun(s: string): (n: nat)
    ensures n <= |s|
    ensures forall i :: 0 <= i < n ==> !IsJsSpace(s[i])
    ensures n < |s| ==> IsJsSpace(s[n])
  {
    if s == [] || IsJsSpace(s[0]) then 0 else 1 + NonSpaceRun(s[1..])
  }

  /**
   * `q.match(/"[^"]*"|\S+/g) || []`: scanning left to right, a quote with a
   * closing quote later yields the quoted text, any other non-space character
   * starts a run of non-space characters, and a space is skipped.
   */
  function Tokens(s: string): (ts: seq<string>)
    ensures forall i :: 0 <= i < |ts| ==> ts[i] != [] && (Quoted(ts[i]) || NoSpace(ts[i]))
    decreases |s|
  {
    if s == [] then []
    else if IsJsSpace(s[0]) then Tokens(s[1..])
    else if s[0] == '"' && IndexOf(s[1..], '"') >= 0 then
      var j := IndexOf(s[1..], '"');
      assert s[1..][..j] == s[..j + 2][1..j + 1];
      [s[..j + 2]] + Tokens(s[j + 2..])
    else
      var n := NonSpaceRun(s);
      [s[..n]] + Tokens(s[n..])
  }

  /** A string of spaces only has no tokens. */
  lemma {:induction false} SpacesHaveNoTokens(s: string)
    requires forall i :: 0 <= i < |s| ==> IsJsSpace(s[i])
    ensures Tokens(s) == []
    decreases |s|
  {
    if s != [] {
      SpacesHaveNoTokens(s[1..]);
    }
  }

  /** A query `trim()` empties has no tokens: the early return for a blank query changes nothing. */
  lemma BlankHasNoTokens(s: string)
    requires Trim(s) == ""
    ensures Tokens(s) == []
  {
    var t := TrimStartBy(s, IsJsSpace);
    assert TrimEndBy(t, IsJsSpace) == "";
    assert t == [];
    SpacesHaveNoTokens(s);
  }

  /** A word, then a space or the end, is one `\S+` run. */
  lemma {:induction false} RunOfWord(w: string, rest: string)
    requires NoSpace(w)
    requires rest == [] || IsJsSpace(rest[0])
    ensures NonSpaceRun(w + rest) == |w|
    decreases |w|
  {
    if w != [] {
      assert (w + rest)[1..] == w[1..] + rest;
      RunOfWord(w[1..], rest);
    } else {
      assert w + rest == rest;
    }
  }

  /** Words without spaces that do not open with a quote: the words of their join. */
  predicate PlainWord(w: string) {
    w != [] && NoSpace(w) && w[0] != '"'
  }

  /** Joining plain words with single spaces and tokenizing gives the words back. */
  lemma {:induction false} TokensOfJoin(ws: seq<string>)
    requires forall i :: 0 <= i < |ws| ==> PlainWord(ws[i])
    ensures Tokens(Join(ws, " ")) == ws
  {
    if |ws| == 1 {
      RunOfWord(ws[0], []);
      assert ws[0] + [] == ws[0];
      assert ws[0][|ws[0]|..] == [];
    } else if |ws| > 1 {
      var w := ws[0];
      var rest := Join(ws[1..], " ");
      var s := w + " " + rest;
      assert Join(ws, " ") == s;
      assert s == w + (" " + rest);
      RunOfWord(w, " " + rest);
      assert s[..|w|] == w;
      assert s[|w|..] == " " + rest;
      assert (" " + rest)[1..] == rest;
      TokensOfJoin(ws[1..]);
      assert Tokens(s) == [w] + Tokens(s[|w|..]);
      assert ws == [w] + ws[1..];
    }
  }

  // ---------------------------------------------------------------- classification

  /** The six list filters of `res.fields`. */
  datatype FieldName = Meeting | Name | Job | Status | Assigned | Remark

  /** What a key of `keyMap` names. */
  datatype Target = ToField(f: FieldName) | ToAssignedBy | ToDom | ToDdl

  /** `keyMap`: the recognised keys, lower-case, and what each names. */
  const KEY_MAP: map<string, Target> := map[
    "meeting" := ToField(Meeting), "m" := ToField(Meeting),
    "name" := ToField(Name), "assignee" := ToField(Name),
    "job" := ToField(Job), "status" := ToField(Status),
    "assigned" := ToField(Assigned), "assignedby" := ToAssignedBy, "by" := ToField(Assigned),
    "remark" := ToField(Remark), "dom" := ToDom, "ddl" := ToDdl]

  /** `keyMap[k] || null` for a lower-cased key. */
  function KeyMap(k: string): Option<Target> {
    if k in KEY_MAP then Some(KEY_MAP[k]) else None
  }

  predicate EndsWith(s: string, x: string) {
    |x| <= |s| && s[|s| - |x|..] == x
  }

  /** A token that starts and ends with a quote loses one character at each end (`slice(1, -1)`). */
  function Unquote(raw: string): (t: string)
    ensures StartsWith(raw, "\"") && EndsWith(raw, "\"") && |raw| >= 2 ==> t == raw[1..|raw| - 1]
    ensures !(StartsWith(raw, "\"") && EndsWith(raw, "\"")) ==> t == raw
    ensures |t| <= |raw|
  {
    if StartsWith(raw, "\"") && EndsWith(raw, "\"") then
      if |raw| >= 2 then raw[1..|raw| - 1] else ""
    else raw
  }

  /** What one token does to the result. */
  datatype Action = AddTerm(t: string) | AddField(f: FieldName, v: string) | SetDom(v: string) | SetDdl(v: string)

  /** `k:v` with a known key names this action. */
  function Keyed(t: Target, v: string): Action {
    match t
    case ToDom => SetDom(v)
    case ToDdl => SetDdl(v)
    case ToAssignedBy => AddField(Assigned, v)
    case ToField(f) => AddField(f, v)
  }

  /** The `forEach` body's decision for one token. */
  function Classify(raw: string): (a: Action)
    ensures a.AddTerm? ==> a.t == Unquote(raw)
    ensures !a.AddTerm? ==> a.v != "" && ':' in Unquote(raw)
  {
    var token := Unquote(raw);
    var idx := IndexOf(token, ':');
    if idx > 0 then
      var k := token[..idx];
      var v := token[idx + 1..];
      var key := KeyMap(Lower(k));
      if key.None? || v == "" then AddTerm(token) else Keyed(key.value, v)
    else AddTerm(token)
  }

  /**
   * A term is the unquoted token itself; any other action comes from a
   * non-empty key without a colon, a colon, and a non-empty value, where
   * the key names that action.
   */
  lemma ClassifyMeaning(raw: string)
    ensures var a := Classify(raw);
      a.AddTerm? ==> a.t == Unquote(raw)
    ensures var a := Classify(raw);
      !a.AddTerm? ==> a.v != "" && exists k ::
        Unquote(raw) == k + ":" + a.v && k != "" && ':' !in k &&
        KeyMap(Lower(k)).Some? && Keyed(KeyMap(Lower(k)).value, a.v) == a
  {
    var token := Unquote(raw);
    var idx := IndexOf(token, ':');
    if idx > 0 {
      var k := token[..idx];
      var v := token[idx + 1..];
      assert token == k + ":" + v;
    }
  }

  /** Conversely, a known key, a colon and a non-empty value always select that key's action. */
  lemma ClassifyKnownKey(k: string, v: string)
    requires k != "" && ':' !in k && k[0] != '"'
    requires KeyMap(Lower(k)).Some? && v != ""
    ensures Classify(k + ":" + v) == Keyed(KeyMap(Lower(k)).value, v)
  {
    var raw := k + ":" + v;
    UnquotePlain(raw);
    KeyColonValue(k, v);
    ClassifyAt(raw, k, v);
  }

  /** The decision for a plain token whose first colon ends the non-empty key `k`. */
  lemma ClassifyAt(raw: string, k: string, v: string)
    requires Unquote(raw) == raw && k != "" && IndexOf(raw, ':') == |k|
    requires raw[..|k|] == k && raw[|k| + 1..] == v
    ensures Classify(raw) == if KeyMap(Lower(k)).None? || v == "" then AddTerm(raw) else Keyed(KeyMap(Lower(k)).value, v)
  {
  }

  /** A token that does not open with a quote is kept as it is. */
  lemma UnquotePlain(raw: string)
    requires raw != [] && raw[0] != '"'
    ensures Unquote(raw) == raw
  {
    assert !StartsWith(raw, "\"") by {
      assert raw[..1][0] == raw[0];
    }
  }

  /** The first colon of `k:v` is the one after `k`. */
  lemma KeyColonValue(k: string, v: string)
    requires ':' !in k
    ensures IndexOf(k + ":" + v, ':') == |k|
    ensures (k + ":" + v)[..|k|] == k && (k + ":" + v)[|k| + 1..] == v
  {
    var raw := k + ":" + v;
    assert raw[..|k|] == k;
    IndexOfAt(raw, ':', |k|);
  }

  /** A token with no colon after its first character is a term. */
  lemma ClassifyNoKey(raw: string)
    requires forall i :: 0 < i < |Unquote(raw)| ==> Unquote(raw)[i] != ':'
    ensures Classify(raw) == AddTerm(Unquote(raw))
  {
  }

  // ---------------------------------------------------------------- the result

  /** `res.fields`: one list per filter; `assignedList` is the `assigned` list, whose name Dafny reserves. */
  datatype Fields = Fields(
    meeting: seq<string>, name: seq<string>, job: seq<string>,
    status: seq<string>, assignedList: seq<string>, remark: seq<string>)
  {
    function Get(f: FieldName): seq<string> {
      match f
      case Meeting => meeting
      case Name => name
      case Job => job
      case Status => status
      case Assigned => assignedList
      case Remark => remark
    }

    /** `res.fields[f].push(v)`. */
    function Push(f: FieldName, v: string): (r: Fields)
      ensures forall g :: r.Get(g) == if g == f then Get(g) + [v] else Get(g)
    {
      match f
      case Meeting => this.(meeting := meeting + [v])
      case Name => this.(name := name + [v])
      case Job => this.(job := job + [v])
      case Status => this.(status := status + [v])
      case Assigned => this.(assignedList := assignedList + [v])
      case Remark => this.(remark := remark + [v])
    }

    function Total(): nat {
      |meeting| + |name| + |job| + |status| + |assignedList| + |remark|
    }
  }

  /** The parsed query; `R` is what `parseDateRangeToken` returns. */
  datatype Query<R> = Query(terms: seq<string>, fields: Fields, dom: Option<R>, ddl: Option<R>)

  function EmptyQuery<R>(): Query<R> {
    Query([], Fields([], [], [], [], [], []), None, None)
  }

  /** One token's effect on `res`. */
  function Apply<R>(res: Query<R>, a: Action, rangeOf: string -> R): Query<R> {
    match a
    case AddTerm(t) => res.(terms := res.terms + [t])
    case AddField(f, v) => res.(fields := res.fields.Push(f, v))
    case SetDom(v) => res.(dom := Some(rangeOf(v)))
    case SetDdl(v) => res.(ddl := Some(rangeOf(v)))
  }

  /** The decision for every token, in order. */
  function Actions(ts: seq<string>): (acts: seq<Action>)
    ensures |acts| == |ts|
    ensures forall i :: 0 <= i < |ts| ==> acts[i] == Classify(ts[i])
  {
    seq(|ts|, i requires 0 <= i < |ts| => Classify(ts[i]))
  }

  /** `res` after the `forEach` has applied `acts` in order. */
  function Run<R>(acts: seq<Action>, rangeOf: string -> R): (q: Query<R>)
    ensures |q.terms| + q.fields.Total() <= |acts|
  {
    if acts == [] then EmptyQuery()
    else Apply(Run(acts[..|acts| - 1], rangeOf), acts[|acts| - 1], rangeOf)
  }

  /** `parseUnifiedQuery(q)`: the empty result for a blank query, else every token applied in order. */
  function Parsed<R>(q: string, rangeOf: string -> R): Query<R> {
    if Trim(q) == "" then EmptyQuery() else Run(Actions(Tokens(q)), rangeOf)
  }

  /** The pushes and assignments of the `forEach` body for one decided token. */
  method Handle<R>(res: Query<R>, a: Action, rangeOf: string -> R) returns (res': Query<R>)
    ensures res' == Apply(res, a, rangeOf)
  {
    res' := res;
    match a {
      case AddTerm(t) =>
        res' := res'.(terms := res'.terms + [t]);
      case AddField(f, v) =>
        res' := res'.(fields := res'.fields.Push(f, v));
      case SetDom(v) =>
        res' := res'.(dom := Some(rangeOf(v)));
      case SetDdl(v) =>
        res' := res'.(ddl := Some(rangeOf(v)));
    }
  }

  /** Running one more action applies it to the result so far. */
  lemma RunStep<R>(acts: seq<Action>, i: int, rangeOf: string -> R)
    requires 0 <= i < |acts|
    ensures Run(acts[..i + 1], rangeOf) == Apply(Run(acts[..i], rangeOf), acts[i], rangeOf)
  {
    assert acts[..i + 1][..i] == acts[..i];
  }

  /** `parseUnifiedQuery`: the early return, then the `forEach` pushing into `res`. */
  method ParseUnifiedQuery<R>(q: string, rangeOf: string -> R) returns (res: Query<R>)
    ensures res == Parsed(q, rangeOf)
  {
    res := EmptyQuery();
    if Trim(q) == "" {
      return;
    }
    var tokens := Tokens(q);
    ghost var acts := Actions(tokens);
    var i := 0;
    while i < |tokens|
      invariant i <= |tokens|
      invariant res == Run(acts[..i], rangeOf)
    {
      RunStep(acts, i, rangeOf);
      var a := Classify(tokens[i]);
      res := Handle(res, a, rangeOf);
      i := i + 1;
    }
    assert acts[..i] == acts;
  }

  // ---------------------------------------------------------------- properties

  /** The blank-query shortcut agrees with tokenizing: a blank query has no tokens. */
  lemma ParsedIsRun<R>(q: string, rangeOf: string -> R)
    ensures Parsed(q, rangeOf) == Run(Actions(Tokens(q)), rangeOf)
  {
    if Trim(q) == "" {
      BlankHasNoTokens(q);
    }
  }

  /** The number of actions that set a date range. */
  function RangeActions(acts: seq<Action>): nat {
    if acts == [] then 0
    else RangeActions(acts[..|acts| - 1]) + if acts[|acts| - 1].SetDom? || acts[|acts| - 1].SetDdl? then 1 else 0
  }

  /** Every token is used exactly once: as a term, as a field value, or as a date range. */
  lemma {:induction false} EveryTokenCounted<R>(acts: seq<Action>, rangeOf: string -> R)
    ensures |Run(acts, rangeOf).terms| + Run(acts, rangeOf).fields.Total() + RangeActions(acts) == |acts|
  {
    if acts != [] {
      EveryTokenCounted(acts[..|acts| - 1], rangeOf);
    }
  }

  /** Every term and every field value comes from a token that selects it. */
  lemma {:induction false} ValuesFromTokens<R>(acts: seq<Action>, rangeOf: string -> R)
    ensures forall t :: t in Run(acts, rangeOf).terms ==> AddTerm(t) in acts
    ensures forall f, v :: v in Run(acts, rangeOf).fields.Get(f) ==> AddField(f, v) in acts
  {
    if acts != [] {
      var init := acts[..|acts| - 1];
      ValuesFromTokens(init, rangeOf);
      assert acts == init + [acts[|acts| - 1]];
    }
  }

  /** Without a `dom:` token the dom range stays unset. */
  lemma {:induction false} NoDom<R>(acts: seq<Action>, rangeOf: string -> R)
    requires forall i :: 0 <= i < |acts| ==> !acts[i].SetDom?
    ensures Run(acts, rangeOf).dom == None
  {
    if acts != [] {
      NoDom(acts[..|acts| - 1], rangeOf);
    }
  }

  /** A later `dom:` token overwrites an earlier one: the range is that of the last. */
  lemma {:induction false} DomIsLast<R>(acts: seq<Action>, rangeOf: string -> R, i: int)
    requires 0 <= i < |acts| && acts[i].SetDom?
    requires forall j :: i < j < |acts| ==> !acts[j].SetDom?
    ensures Run(acts, rangeOf).dom == Some(rangeOf(acts[i].v))
  {
    var init := acts[..|acts| - 1];
    if i < |init| {
      assert forall j :: i < j < |init| ==> init[j] == acts[j];
      DomIsLast(init, rangeOf, i);
    }
  }

  /** Without a `ddl:` token the ddl range stays unset. */
  lemma {:induction false} NoDdl<R>(acts: seq<Action>, rangeOf: string -> R)
    requires forall i :: 0 <= i < |acts| ==> !acts[i].SetDdl?
    ensures Run(acts, rangeOf).ddl == None
  {
    if acts != [] {
      NoDdl(acts[..|acts| - 1], rangeOf);
    }
  }

  /** A later `ddl:` token overwrites an earlier one: the range is that of the last. */
  lemma {:induction false} DdlIsLast<R>(acts: seq<Action>, rangeOf: string -> R, i: int)
    requires 0 <= i < |acts| && acts[i].SetDdl?
    requires forall j :: i < j < |acts| ==> !acts[j].SetDdl?
    ensures Run(acts, rangeOf).ddl == Some(rangeOf(acts[i].v))
  {
    var init := acts[..|acts| - 1];
    if i < |init| {
      assert forall j :: i < j < |init| ==> init[j] == acts[j];
      DdlIsLast(init, rangeOf, i);
    }
  }
}
