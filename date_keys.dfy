/**
 * The tolerant `YYYY-MM-DD` date keys of the attendance views: `toKey`/`ymd`
 * print a year, month and day with two-digit padding, and `normalizeDateKey`
 * (and the numeric path of `toISODate`) reads back the first three runs of
 * digits of any text, accepting them when the year is after 1900, the month
 * is 1..12 and the day is 1..31.
 */
module DateKeys {
  import opened Common
  import opened Text
  import Seqs

  datatype Ymd = Ymd(y: nat, m: nat, d: nat)

  /** `String(n)` for any integer. */
  function IntToString(n: int): string {
    if n < 0 then "-" + NatToString(-n) else NatToString(n)
  }

  /** `toKey(y, m, d)` / `ymd(y, m, d)`: `${y}-${pad(m)}-${pad(d)}`. */
  function ToKey(y: int, m: nat, d: nat): string {
    IntToString(y) + "-" + Pad2(m) + "-" + Pad2(d)
  }

  /** `String(raw).split(/[^0-9]+/).filter(Boolean).map(Number)`. */
  function DigitNumbers(s: string): (ns: seq<nat>)
    ensures |ns| == |DigitRuns(s)|
    ensures forall k :: 0 <= k < |ns| ==> ns[k] == DecimalValue(DigitRuns(s)[k])
  {
    var runs := DigitRuns(s);
    seq(|runs|, k requires 0 <= k < |runs| => DecimalValue(runs[k]))
  }

  /** The range check both parsers apply to the first three numbers. */
  predicate Plausible(y: int, m: int, d: int) {
    y > 1900 && 1 <= m <= 12 && 1 <= d <= 31
  }

  /** The year, month and day a raw date text names, if its first three numbers are plausible. */
  function ParseYmd(raw: string): (r: Option<Ymd>)
    ensures r.Some? ==> Plausible(r.value.y, r.value.m, r.value.d)
  {
    var ns := DigitNumbers(raw);
    if |ns| >= 3 && Plausible(ns[0], ns[1], ns[2]) then Some(Ymd(ns[0], ns[1], ns[2])) else None
  }

  /** `normalizeDateKey(raw)`: the canonical key, or null. */
  function NormalizeDateKey(raw: string): (r: Option<string>)
    ensures r.Some? <==> ParseYmd(raw).Some?
  {
    match ParseYmd(raw)
    case Some(ymd) => Some(ToKey(ymd.y, ymd.m, ymd.d))
    case None => None
  }

  /** `monthOf(iso)`: `iso.slice(0, 7)`. */
  function MonthOf(iso: string): (r: string)
    ensures |r| == (if |iso| < 7 then |iso| else 7) && r == iso[..|r|]
  {
    if |iso| < 7 then iso else iso[..7]
  }

  /** `${year}-${pad(month)}`: the month a four-digit-year key belongs to. */
  function MonthKey(y: nat, m: nat): string {
    NatToString(y) + "-" + Pad2(m)
  }

  /** The digit runs of a key are its three printed fields. */
  lemma KeyDigitRuns(y: nat, m: nat, d: nat)
    ensures DigitRuns(ToKey(y, m, d)) == [NatToString(y), Pad2(m), Pad2(d)]
  {
    assert IntToString(y) == NatToString(y);
    DashedFieldRuns(NatToString(y), Pad2(m), Pad2(d));
  }

  lemma DashedFieldRuns(a: string, b: string, c: string)
    requires a != [] && AllDigits(a) && b != [] && AllDigits(b) && c != [] && AllDigits(c)
    ensures DigitRuns(a + "-" + b + "-" + c) == [a, b, c]
  {
    DigitRunsOfDigits(c);
    DashedTwoRuns(b, c);
    DashedThreeRuns(a, b, c);
    DashedAssoc(a, b, c);
  }

  lemma DashedTwoRuns(b: string, c: string)
    requires b != [] && AllDigits(b) && c != [] && IsDigit(c[0])
    requires DigitRuns(c) == [c]
    ensures DigitRuns(b + ("-" + c)) == [b, c]
  {
    DashedRuns(b, c);
    Seqs.PairCons(b, c);
  }

  lemma DashedThreeRuns(a: string, b: string, c: string)
    requires a != [] && AllDigits(a) && b != [] && AllDigits(b)
    requires DigitRuns(b + ("-" + c)) == [b, c]
    ensures DigitRuns(a + ("-" + (b + ("-" + c)))) == [a, b, c]
  {
    var s2 := b + ("-" + c);
    assert s2[0] == b[0];
    DashedRuns(a, s2);
  }

  lemma DashedAssoc(a: string, b: string, c: string)
    ensures a + "-" + b + "-" + c == a + ("-" + (b + ("-" + c)))
  {
  }

  /** A digit run, a dash, and text starting with a digit: the run comes first. */
  lemma DashedRuns(a: string, rest: string)
    requires a != [] && AllDigits(a)
    requires rest == [] || IsDigit(rest[0])
    ensures DigitRuns(a + ("-" + rest)) == [a] + DigitRuns(rest)
  {
    DigitRunsCons(a, "-" + rest);
    SkipDash(rest);
  }

  lemma SkipDash(s: string)
    requires s == [] || IsDigit(s[0])
    ensures DigitRuns("-" + s) == DigitRuns(s)
  {
    var t := "-" + s;
    assert t[1..] == s;
    assert DropNonDigits(t) == DropNonDigits(s);
  }

  /**
   * Re-reading a key the way the attendance handler does,
   * `key.split('-').map(Number)`, gives back the numbers it was printed from.
   */
  lemma KeySplitRoundTrip(y: nat, m: nat, d: nat)
    ensures Split(ToKey(y, m, d), '-') == [NatToString(y), Pad2(m), Pad2(d)]
    ensures DecimalValue(NatToString(y)) == y && DecimalValue(Pad2(m)) == m && DecimalValue(Pad2(d)) == d
  {
    var a, b, c := NatToString(y), Pad2(m), Pad2(d);
    assert '-' !in a && '-' !in b && '-' !in c by {
      assert forall s: string :: AllDigits(s) ==> '-' !in s;
    }
    assert ToKey(y, m, d) == a + ['-'] + (b + ['-'] + c);
    SplitCons(a, '-', b + ['-'] + c);
    SplitCons(b, '-', c);
    SplitNoSep(c, '-');
    NatToStringValue(y);
    Pad2Value(m);
    Pad2Value(d);
  }

  /** A plausible date printed as a key parses back to itself. */
  lemma ParseOfKey(y: nat, m: nat, d: nat)
    requires Plausible(y, m, d)
    ensures ParseYmd(ToKey(y, m, d)) == Some(Ymd(y, m, d))
  {
    KeyDigitRuns(y, m, d);
    KeySplitRoundTrip(y, m, d);
  }

  /** Normalising a normalised key changes nothing. */
  lemma NormalizeIdempotent(raw: string)
    requires NormalizeDateKey(raw).Some?
    ensures NormalizeDateKey(NormalizeDateKey(raw).value) == NormalizeDateKey(raw)
  {
    var ymd := ParseYmd(raw).value;
    ParseOfKey(ymd.y, ymd.m, ymd.d);
  }

  /** Two raw texts share a key exactly when they name the same plausible date. */
  lemma SameKeyIff(raw1: string, raw2: string)
    requires ParseYmd(raw1).Some? && ParseYmd(raw2).Some?
    ensures NormalizeDateKey(raw1) == NormalizeDateKey(raw2) <==> ParseYmd(raw1) == ParseYmd(raw2)
  {
    var a, b := ParseYmd(raw1).value, ParseYmd(raw2).value;
    if ToKey(a.y, a.m, a.d) == ToKey(b.y, b.m, b.d) {
      ParseOfKey(a.y, a.m, a.d);
      ParseOfKey(b.y, b.m, b.d);
    }
  }

  lemma FourDigits(y: nat)
    requires 1000 <= y <= 9999
    ensures |NatToString(y)| == 4
  {
    var c, b, a := y / 10, y / 100, y / 1000;
    assert c / 10 == b && b / 10 == a && 1 <= a <= 9 && 10 <= b && 100 <= c;
    assert |NatToString(a)| == 1;
    assert |NatToString(b)| == 2;
    assert |NatToString(c)| == 3;
  }

  /** For a four-digit year, `monthOf` of a key is its `YYYY-MM` month. */
  lemma MonthOfKey(y: nat, m: nat, d: nat)
    requires 1000 <= y <= 9999 && 1 <= m <= 12
    ensures MonthOf(ToKey(y, m, d)) == MonthKey(y, m)
  {
    FourDigits(y);
    assert |Pad2(m)| == 2;
    var k := ToKey(y, m, d);
    assert k == MonthKey(y, m) + ("-" + Pad2(d));
  }
}
