/**
 * The string primitives the application leans on, with JavaScript's meaning:
 * `trim`, `toLowerCase`, `includes`, `startsWith`, `indexOf`, `split(',')`,
 * `join`, `String(n).padStart(2, '0')`, and the `split(/[^0-9]+/).filter(Boolean)
 * .map(Number)` idiom that both date parsers use.
 */
module Text {

  /** ECMAScript WhiteSpace and LineTerminator: what `trim()` strips and `\s` matches. */
  predicate IsJsSpace(c: char) {
    ('\t' <= c <= '\r') || c == ' ' || c == '\U{00A0}' || c == '\U{1680}' ||
    ('\U{2000}' <= c <= '\U{200A}') || c == '\U{2028}' || c == '\U{2029}' ||
    c == '\U{202F}' || c == '\U{205F}' || c == '\U{3000}' || c == '\U{FEFF}'
  }

  /** Python's `str.isspace`, what `str.strip()` removes. */
  predicate IsPySpace(c: char) {
    ('\t' <= c <= '\r') || ('\U{001C}' <= c <= '\U{001F}') || c == ' ' || c == '\U{0085}' ||
    c == '\U{00A0}' || c == '\U{1680}' || ('\U{2000}' <= c <= '\U{200A}') ||
    c == '\U{2028}' || c == '\U{2029}' || c == '\U{202F}' || c == '\U{205F}' || c == '\U{3000}'
  }

  predicate IsDigit(c: char) { '0' <= c <= '9' }

  predicate AllDigits(s: string) { forall i :: 0 <= i < |s| ==> IsDigit(s[i]) }

  /** Drops the leading characters that satisfy `sp`. */
  function TrimStartBy(s: string, sp: char -> bool): (r: string)
    ensures |r| <= |s| && r == s[|s| - |r|..]
    ensures r == [] || !sp(r[0])
    ensures forall i :: 0 <= i < |s| - |r| ==> sp(s[i])
  {
    if s != [] && sp(s[0]) then TrimStartBy(s[1..], sp) else s
  }

  /** Drops the trailing characters that satisfy `sp`. */
  function TrimEndBy(s: string, sp: char -> bool): (r: string)
    ensures |r| <= |s| && r == s[..|r|]
    ensures r == [] || !sp(r[|r| - 1])
    ensures forall i :: |r| <= i < |s| ==> sp(s[i])
  {
    if s != [] && sp(s[|s| - 1]) then TrimEndBy(s[..|s| - 1], sp) else s
  }

  /** JavaScript `s.trim()`. */
  function Trim(s: string): (r: string)
    ensures |r| <= |s|
    ensures r == [] || (!IsJsSpace(r[0]) && !IsJsSpace(r[|r| - 1]))
  {
    TrimEndBy(TrimStartBy(s, IsJsSpace), IsJsSpace)
  }

  /** Python `s.strip()`. */
  function PyStrip(s: string): (r: string)
    ensures |r| <= |s|
    ensures r == [] || (!IsPySpace(r[0]) && !IsPySpace(r[|r| - 1]))
  {
    TrimEndBy(TrimStartBy(s, IsPySpace), IsPySpace)
  }

  lemma TrimStartOfTrimmed(s: string, sp: char -> bool)
    requires s == [] || !sp(s[0])
    ensures TrimStartBy(s, sp) == s
  {
  }

  lemma TrimEndOfTrimmed(s: string, sp: char -> bool)
    requires s == [] || !sp(s[|s| - 1])
    ensures TrimEndBy(s, sp) == s
  {
  }

  /** Trimming twice is trimming once. */
  lemma TrimIdempotent(s: string)
    ensures Trim(Trim(s)) == Trim(s)
  {
    var t := Trim(s);
    TrimStartOfTrimmed(t, IsJsSpace);
    TrimEndOfTrimmed(t, IsJsSpace);
  }

  /** No space at either end: what `trim()` produces. */
  predicate IsTrimmed(s: string) {
    s == [] || (!IsJsSpace(s[0]) && !IsJsSpace(s[|s| - 1]))
  }

  /** Trimming adds no character: what the text lacks, its trim lacks. */
  lemma TrimKeepsOut(s: string, c: char)
    requires c !in s
    ensures c !in Trim(s)
  {
    var t := TrimStartBy(s, IsJsSpace);
    assert t == s[|s| - |t|..];
    assert c !in t;
    var u := TrimEndBy(t, IsJsSpace);
    assert u == t[..|u|];
  }

  /** A string already without edge spaces is its own trim. */
  lemma TrimOfTrimmed(s: string)
    requires IsTrimmed(s)
    ensures Trim(s) == s
  {
    TrimStartOfTrimmed(s, IsJsSpace);
    TrimEndOfTrimmed(s, IsJsSpace);
  }

  /** Leading spaces do not change the trim. */
  lemma {:induction false} TrimLeadingSpace(pad: string, s: string)
    requires forall i :: 0 <= i < |pad| ==> IsJsSpace(pad[i])
    ensures Trim(pad + s) == Trim(s)
  {
    if pad != [] {
      assert (pad + s)[1..] == pad[1..] + s;
      assert TrimStartBy(pad + s, IsJsSpace) == TrimStartBy(pad[1..] + s, IsJsSpace);
      TrimLeadingSpace(pad[1..], s);
    } else {
      assert pad + s == s;
    }
  }

  /** `toLowerCase` on one character; only the ASCII letters are mapped. */
  function LowerChar(c: char): char {
    if 'A' <= c <= 'Z' then (c as int + 32) as char else c
  }

  /** JavaScript `s.toLowerCase()`, restricted to the ASCII letters. */
  function Lower(s: string): (r: string)
    ensures |r| == |s|
    ensures forall i :: 0 <= i < |s| ==> r[i] == LowerChar(s[i])
  {
    if s == [] then [] else [LowerChar(s[0])] + Lower(s[1..])
  }

  lemma LowerIdempotent(s: string)
    ensures Lower(Lower(s)) == Lower(s)
  {
  }

  lemma LowerAppend(a: string, b: string)
    ensures Lower(a + b) == Lower(a) + Lower(b)
  {
  }

  /** `hay.slice(i, i + |needle|) === needle`. */
  predicate OccursAt(hay: string, needle: string, i: int) {
    0 <= i && i + |needle| <= |hay| && hay[i..i + |needle|] == needle
  }

  /** JavaScript `hay.includes(needle)`. */
  predicate Contains(hay: string, needle: string) {
    exists i | 0 <= i <= |hay| :: OccursAt(hay, needle, i)
  }

  lemma ContainsEmpty(hay: string)
    ensures Contains(hay, "")
  {
    assert OccursAt(hay, "", 0);
  }

  /** JavaScript `s.startsWith(p)`, Python `s.startswith(p)`. */
  predicate StartsWith(s: string, p: string) {
    |p| <= |s| && s[..|p|] == p
  }

  /** JavaScript `s.indexOf(c)` for a single character. */
  function IndexOf(s: string, c: char): (i: int)
    ensures -1 <= i < |s|
    ensures i == -1 <==> c !in s
    ensures i >= 0 ==> s[i] == c && c !in s[..i]
  {
    if s == [] then -1
    else if s[0] == c then 0
    else
      var j := IndexOf(s[1..], c);
      if j == -1 then -1
      else
        assert s[..j + 1] == [s[0]] + s[1..][..j];
        j + 1
  }

  /** JavaScript `s.split(sep)` for a one-character separator: never empty. */
  function Split(s: string, sep: char): (parts: seq<string>)
    ensures |parts| >= 1
    ensures forall i :: 0 <= i < |parts| ==> sep !in parts[i]
    decreases |s|
  {
    var i := IndexOf(s, sep);
    if i < 0 then [s]
    else
      var head, rest := s[..i], Split(s[i + 1..], sep);
      assert sep !in head;
      assert forall k :: 0 < k < |[head] + rest| ==> ([head] + rest)[k] == rest[k - 1];
      [head] + rest
  }

  /** `parts.join(sep)`. */
  function Join(parts: seq<string>, sep: string): string {
    if parts == [] then ""
    else if |parts| == 1 then parts[0]
    else parts[0] + sep + Join(parts[1..], sep)
  }

  /** `parts.map(p => p.trim())`. */
  function TrimAll(parts: seq<string>): (r: seq<string>)
    ensures |r| == |parts|
    ensures forall i :: 0 <= i < |parts| ==> r[i] == Trim(parts[i])
  {
    if parts == [] then [] else [Trim(parts[0])] + TrimAll(parts[1..])
  }

  /** `parts.filter(Boolean)`: the non-empty strings, in order. */
  function NonEmpty(parts: seq<string>): (r: seq<string>)
    ensures forall x :: x in r <==> x in parts && x != ""
  {
    if parts == [] then []
    else if parts[0] == "" then NonEmpty(parts[1..])
    else [parts[0]] + NonEmpty(parts[1..])
  }

  /** The cleaned pieces are exactly the non-empty trims of the raw pieces. */
  lemma TrimmedNonEmpty(raw: seq<string>, x: string)
    ensures x in NonEmpty(TrimAll(raw)) <==> x != "" && exists i :: 0 <= i < |raw| && x == Trim(raw[i])
  {
    var ps := TrimAll(raw);
    if x in ps {
      var i :| 0 <= i < |ps| && ps[i] == x;
      assert x == Trim(raw[i]);
    }
    if exists i :: 0 <= i < |raw| && x == Trim(raw[i]) {
      var i :| 0 <= i < |raw| && x == Trim(raw[i]);
      assert ps[i] == x;
    }
  }

  /** Every cleaned piece is non-empty and has no edge spaces. */
  lemma CleanedTrimmed(raw: seq<string>)
    ensures forall x :: x in NonEmpty(TrimAll(raw)) ==> x != "" && IsTrimmed(x)
  {
    forall x | x in NonEmpty(TrimAll(raw)) ensures x != "" && IsTrimmed(x) {
      TrimmedNonEmpty(raw, x);
    }
  }

  /** Splitting at the first separator: the head is the text before it. */
  lemma SplitHead(s: string, sep: char)
    ensures Split(s, sep)[0] == if sep in s then s[..IndexOf(s, sep)] else s
  {
  }

  /** Each piece with one leading space, as `join(', ')` leaves them after the comma. */
  function SpaceLed(parts: seq<string>): (r: seq<string>)
    ensures |r| == |parts|
    ensures forall i :: 0 <= i < |parts| ==> r[i] == " " + parts[i]
  {
    if parts == [] then [] else [" " + parts[0]] + SpaceLed(parts[1..])
  }

  /** Splitting `pre + parts.join(', ')` at the commas, when no piece holds a comma. */
  lemma {:induction false} SplitJoin(pre: string, parts: seq<string>)
    requires |parts| >= 1 && ',' !in pre
    requires forall i :: 0 <= i < |parts| ==> ',' !in parts[i]
    ensures Split(pre + Join(parts, ", "), ',') == [pre + parts[0]] + SpaceLed(parts[1..])
    decreases |parts|
  {
    if |parts| == 1 {
      SplitNoSep(pre + parts[0], ',');
    } else {
      var rest := Join(parts[1..], ", ");
      JoinCons(parts);
      assert pre + Join(parts, ", ") == (pre + parts[0]) + [','] + (" " + rest);
      SplitCons(pre + parts[0], ',', " " + rest);
      SplitJoin(" ", parts[1..]);
      assert [" " + parts[1]] + SpaceLed(parts[2..]) == SpaceLed(parts[1..]);
    }
  }

  /**
   * Joining pieces with `", "` and splitting the result at `','` gives back the
   * pieces once each is trimmed, provided no piece holds a comma and every piece
   * is already trimmed.
   */
  lemma SplitJoinRoundTrip(parts: seq<string>)
    requires |parts| >= 1
    requires forall i :: 0 <= i < |parts| ==> ',' !in parts[i] && IsTrimmed(parts[i])
    ensures TrimAll(Split(Join(parts, ", "), ',')) == parts
  {
    SplitJoinPieces(parts);
    TrimJoinPieces(parts);
  }

  lemma SplitJoinPieces(parts: seq<string>)
    requires |parts| >= 1
    requires forall i :: 0 <= i < |parts| ==> ',' !in parts[i]
    ensures Split(Join(parts, ", "), ',') == [parts[0]] + SpaceLed(parts[1..])
  {
    SplitJoin("", parts);
    assert "" + Join(parts, ", ") == Join(parts, ", ");
    assert "" + parts[0] == parts[0];
  }

  lemma TrimJoinPieces(parts: seq<string>)
    requires |parts| >= 1
    requires forall i :: 0 <= i < |parts| ==> IsTrimmed(parts[i])
    ensures TrimAll([parts[0]] + SpaceLed(parts[1..])) == parts
  {
    var rest := SpaceLed(parts[1..]);
    TrimAllCons(parts[0], rest);
    assert Trim(parts[0]) == parts[0] by {
      TrimOfTrimmed(parts[0]);
    }
    assert TrimAll(rest) == parts[1..] by {
      TrimSpaceLed(parts, 1);
    }
    assert [parts[0]] + parts[1..] == parts;
  }

  /** Trimming undoes the leading space `SpaceLed` adds to trimmed pieces. */
  lemma {:induction false} TrimSpaceLed(parts: seq<string>, k: nat)
    requires k <= |parts|
    requires forall i :: 0 <= i < |parts| ==> IsTrimmed(parts[i])
    ensures TrimAll(SpaceLed(parts[k..])) == parts[k..]
    decreases |parts| - k
  {
    if k < |parts| {
      assert parts[k..][1..] == parts[k + 1..];
      var rest := SpaceLed(parts[k + 1..]);
      assert SpaceLed(parts[k..]) == [" " + parts[k]] + rest;
      TrimAllCons(" " + parts[k], rest);
      assert Trim(" " + parts[k]) == parts[k] by {
        TrimLeadingSpace(" ", parts[k]);
        TrimOfTrimmed(parts[k]);
      }
      assert TrimAll(rest) == parts[k + 1..] by {
        TrimSpaceLed(parts, k + 1);
      }
      assert [parts[k]] + parts[k + 1..] == parts[k..];
    }
  }

  lemma TrimAllCons(a: string, rest: seq<string>)
    ensures TrimAll([a] + rest) == [Trim(a)] + TrimAll(rest)
  {
    assert ([a] + rest)[1..] == rest;
  }

  lemma JoinCons(parts: seq<string>)
    requires |parts| >= 2
    ensures Join(parts, ", ") == parts[0] + [','] + (" " + Join(parts[1..], ", "))
  {
    var rest := Join(parts[1..], ", ");
    assert parts[0] + ", " + rest == parts[0] + [','] + (" " + rest);
  }

  lemma IndexOfAt(s: string, c: char, i: int)
    requires 0 <= i < |s| && s[i] == c && c !in s[..i]
    ensures IndexOf(s, c) == i
  {
    if i > 0 {
      assert s[1..][..i - 1] == s[1..i];
      assert c !in s[1..][..i - 1] by {
        assert forall k :: 0 <= k < i - 1 ==> s[1..][k] == s[..i][k + 1];
      }
      IndexOfAt(s[1..], c, i - 1);
    }
  }

  /** `str.split(/[^0-9]+/)` keeps only the runs of ASCII digits once `filter(Boolean)` drops the empty pieces. */
  function DropNonDigits(s: string): (r: string)
    ensures |r| <= |s| && r == s[|s| - |r|..]
    ensures r == [] || IsDigit(r[0])
  {
    if s != [] && !IsDigit(s[0]) then DropNonDigits(s[1..]) else s
  }

  /** The length of the run of digits that starts `s`. */
  function DigitPrefixLen(s: string): (n: nat)
    ensures n <= |s|
    ensures forall i :: 0 <= i < n ==> IsDigit(s[i])
    ensures n < |s| ==> !IsDigit(s[n])
  {
    if s != [] && IsDigit(s[0]) then 1 + DigitPrefixLen(s[1..]) else 0
  }

  /** The maximal runs of ASCII digits in `s`, in order: `s.split(/[^0-9]+/).filter(Boolean)`. */
  function DigitRuns(s: string): (runs: seq<string>)
    ensures forall k :: 0 <= k < |runs| ==> runs[k] != [] && AllDigits(runs[k])
    decreases |s|
  {
    var t := DropNonDigits(s);
    if t == [] then []
    else
      var n := DigitPrefixLen(t);
      assert n > 0;
      var run := t[..n];
      assert AllDigits(run) by {
        assert forall i :: 0 <= i < |run| ==> run[i] == t[i];
      }
      assert |t[n..]| < |s|;
      var more := DigitRuns(t[n..]);
      RunsCons(run, more);
      [run] + more
  }

  /** The digit-run shape survives putting one more run in front. */
  lemma RunsCons(run: string, more: seq<string>)
    requires run != [] && AllDigits(run)
    requires forall k :: 0 <= k < |more| ==> more[k] != [] && AllDigits(more[k])
    ensures forall k :: 0 <= k < |[run] + more| ==> ([run] + more)[k] != [] && AllDigits(([run] + more)[k])
  {
    var r := [run] + more;
    forall k | 0 <= k < |r|
      ensures r[k] != [] && AllDigits(r[k])
    {
      if k > 0 {
        assert r[k] == more[k - 1];
      }
    }
  }

  function DigitValue(c: char): nat
    requires IsDigit(c)
  {
    c as nat - '0' as nat
  }

  /** `Number(run)` for a run of decimal digits (leading zeros allowed). */
  function DecimalValue(s: string): nat
    requires AllDigits(s)
  {
    if s == [] then 0 else 10 * DecimalValue(s[..|s| - 1]) + DigitValue(s[|s| - 1])
  }

  function DigitChar(d: nat): char
    requires d < 10
  {
    ('0' as int + d) as char
  }

  /** `String(n)` for a non-negative integer: decimal digits without leading zeros. */
  function NatToString(n: nat): (s: string)
    ensures s != [] && AllDigits(s)
    ensures n > 0 ==> s[0] != '0'
  {
    if n < 10 then [DigitChar(n)] else NatToString(n / 10) + [DigitChar(n % 10)]
  }

  /** `String(n).padStart(2, '0')`. */
  function Pad2(n: nat): (s: string)
    ensures s != [] && AllDigits(s)
  {
    if n < 10 then "0" + NatToString(n) else NatToString(n)
  }

  /** Reading back what `String(n)` wrote gives `n`. */
  lemma {:induction false} NatToStringValue(n: nat)
    ensures DecimalValue(NatToString(n)) == n
  {
    if n >= 10 {
      var s := NatToString(n);
      assert s[..|s| - 1] == NatToString(n / 10);
      NatToStringValue(n / 10);
    }
  }

  lemma {:induction false} LeadingZeroValue(s: string)
    requires AllDigits(s)
    ensures AllDigits("0" + s) && DecimalValue("0" + s) == DecimalValue(s)
  {
    if s != [] {
      var t := "0" + s;
      assert t[..|t| - 1] == "0" + s[..|s| - 1];
      LeadingZeroValue(s[..|s| - 1]);
    } else {
      assert ("0" + s)[..0] == [];
    }
  }

  lemma Pad2Value(n: nat)
    ensures DecimalValue(Pad2(n)) == n
  {
    NatToStringValue(n);
    if n < 10 { LeadingZeroValue(NatToString(n)); }
  }

  /** A leading run of digits followed by a non-digit is the first digit run. */
  lemma {:induction false} DigitRunsCons(a: string, rest: string)
    requires a != [] && AllDigits(a)
    requires rest == [] || !IsDigit(rest[0])
    ensures DigitRuns(a + rest) == [a] + DigitRuns(rest)
  {
    var s := a + rest;
    assert DropNonDigits(s) == s;
    DigitPrefixLenOf(a, rest);
    assert s[..|a|] == a && s[|a|..] == rest;
  }

  lemma {:induction false} DigitPrefixLenOf(a: string, rest: string)
    requires AllDigits(a)
    requires rest == [] || !IsDigit(rest[0])
    ensures DigitPrefixLen(a + rest) == |a|
  {
    if a != [] {
      assert (a + rest)[1..] == a[1..] + rest;
      DigitPrefixLenOf(a[1..], rest);
    }
  }

  lemma DigitRunsOfDigits(a: string)
    requires a != [] && AllDigits(a)
    ensures DigitRuns(a) == [a]
  {
    DigitRunsCons(a, []);
    assert a + [] == a;
  }

  /** Splitting a string with no separator gives the string itself. */
  lemma SplitNoSep(s: string, sep: char)
    requires sep !in s
    ensures Split(s, sep) == [s]
  {
  }

  /** Splitting `a + [sep] + rest` where `a` has no separator. */
  lemma SplitCons(a: string, sep: char, rest: string)
    requires sep !in a
    ensures Split(a + [sep] + rest, sep) == [a] + Split(rest, sep)
  {
    var s := a + [sep] + rest;
    assert s[..|a|] == a;
    IndexOfAt(s, sep, |a|);
    assert s[|a| + 1..] == rest;
  }
}
