/**
 * The colours of a meeting's sticky notes: a note's colour, given as a hex
 * string or a Tailwind background class, resolved to a hex string, and a
 * hex string taken apart into its red, green and blue channels.
 */
module NoteColors {
  import opened Common
  import opened Text

  /** The grey of a note without a usable colour. */
  const FALLBACK: string := "#E5E7EB"

  /** `tailwindToColor`. */
  const TAILWIND: map<string, string> := map[
    "bg-yellow-100" := "#fef9c3", "bg-yellow-200" := "#fef08a",
    "bg-red-100" := "#fee2e2", "bg-red-200" := "#fecaca",
    "bg-green-100" := "#dcfce7", "bg-green-200" := "#bbf7d0",
    "bg-blue-100" := "#dbeafe", "bg-blue-200" := "#bfdbfe",
    "bg-pink-100" := "#fce7f3", "bg-pink-200" := "#fbcfe8"]

  /**
   * The names an object literal inherits from `Object.prototype`. Looking one
   * up in `tailwindToColor` gives a function, or for `__proto__` an object:
   * a truthy value that is not a text.
   */
  const INHERITED: set<string> := {
    "constructor", "hasOwnProperty", "isPrototypeOf", "propertyIsEnumerable",
    "toLocaleString", "toString", "valueOf", "__proto__",
    "__defineGetter__", "__defineSetter__", "__lookupGetter__", "__lookupSetter__"}

  /**
   * `resolveColor(raw)`; an argument `None` is an absent colour. The result
   * is `None` when the class lookup finds an inherited member instead of a
   * colour text.
   */
  function ResolveColor(raw: Option<string>): (c: Option<string>)
    ensures c.Some? ==> StartsWith(c.value, "#")
  {
    assert forall v :: v in TAILWIND.Values ==> StartsWith(v, "#");
    if !Truthy(raw) then Some(FALLBACK)
    else if StartsWith(raw.value, "#") then Some(raw.value)
    else if raw.value in TAILWIND then Some(TAILWIND[raw.value])
    else if raw.value in INHERITED then None
    else Some(FALLBACK)
  }

  /**
   * A note's colour resolves to a `#` text (the given one, the class's, or
   * the grey) unless it is neither a `#` text nor a known class but names an
   * inherited member; the grey results exactly when the colour is missing,
   * is the grey, or is none of the three.
   */
  lemma ResolveColorCases(raw: Option<string>)
    ensures ResolveColor(raw).None? <==> Truthy(raw) && Inherits(raw.value)
    ensures ResolveColor(raw).Some? ==> StartsWith(ResolveColor(raw).value, "#")
    ensures Truthy(raw) && StartsWith(raw.value, "#") ==> ResolveColor(raw) == Some(raw.value)
    ensures Truthy(raw) && !StartsWith(raw.value, "#") && raw.value in TAILWIND ==>
      ResolveColor(raw) == Some(TAILWIND[raw.value])
    ensures ResolveColor(raw) == Some(FALLBACK) <==>
      !Truthy(raw) || raw.value == FALLBACK ||
      (!StartsWith(raw.value, "#") && raw.value !in TAILWIND && raw.value !in INHERITED)
  {
    var vs := TAILWIND.Values;
    assert forall v :: v in vs ==> StartsWith(v, "#") && v != FALLBACK;
  }

  /** A colour text that the lookup resolves to an inherited member: not `#`, not a class, an inherited name. */
  predicate Inherits(v: string) {
    !StartsWith(v, "#") && v !in TAILWIND && v in INHERITED
  }

  /** A note coloured `toString` gets the inherited method as its accent. */
  lemma ToStringInherits()
    ensures Inherits("toString")
  {
    assert "toString"[0] != '#';
    assert forall k :: k in TAILWIND ==> k[0] == 'b';
  }

  /**
   * The note's accent channels, `hexToRgb(resolveColor(note.color))`. `None`
   * is the `TypeError` that `hex.replace` throws on an accent that is not a
   * text, which breaks the rendering of the notes.
   */
  function AccentRgb(raw: Option<string>): (c: Option<Rgb>)
    ensures c.None? <==> Truthy(raw) && Inherits(raw.value)
    ensures c.Some? ==> 0 <= c.value.r < 256 && 0 <= c.value.g < 256 && 0 <= c.value.b < 256
  {
    ResolveColorCases(raw);
    var accent := ResolveColor(raw);
    if accent.None? then None else Some(HexToRgb(accent.value))
  }

  // ---------------------------------------------------------------- hexadecimal digits

  predicate IsHexDigit(c: char) {
    '0' <= c <= '9' || 'a' <= c <= 'f' || 'A' <= c <= 'F'
  }

  /** The value of a hex digit (0 for any other character, which is never read as one). */
  function HexDigitValue(c: char): (v: nat)
    ensures v < 16
  {
    if '0' <= c <= '9' then c as int - '0' as int
    else if 'a' <= c <= 'f' then c as int - 'a' as int + 10
    else if 'A' <= c <= 'F' then c as int - 'A' as int + 10
    else 0
  }

  /** The value of a run of hex digits, most significant first. */
  function HexValue(d: string): nat {
    if d == [] then 0 else HexValue(d[..|d| - 1]) * 16 + HexDigitValue(d[|d| - 1])
  }

  /** The length of the leading run of hex digits. */
  function HexRun(s: string): (n: nat)
    ensures n <= |s|
    ensures forall i :: 0 <= i < n ==> IsHexDigit(s[i])
    ensures n == |s| || !IsHexDigit(s[n])
  {
    if s != [] && IsHexDigit(s[0]) then 1 + HexRun(s[1..]) else 0
  }

  /** The text after an optional sign. */
  function Unsigned(t: string): (u: string)
    ensures u == t || (t != [] && (t[0] == '-' || t[0] == '+') && u == t[1..])
  {
    if t != [] && (t[0] == '-' || t[0] == '+') then t[1..] else t
  }

  /** The text after an optional `0x` or `0X`. */
  function Unprefixed(u: string): (v: string)
    ensures v == u || (|u| >= 2 && u[0] == '0' && v == u[2..])
  {
    if |u| >= 2 && u[0] == '0' && (u[1] == 'x' || u[1] == 'X') then u[2..] else u
  }

  /** 2^53: below it every integer is a double. */
  const SAFE: nat := 0x20_0000_0000_0000

  /** 2^1024: a value that rounds to it or beyond is `Infinity`. */
  const OVERFLOW: nat := 0x1_0000000000000000000000000000000000000000000000000000000000000000000000000000000000000000000000000000000000000000000000000000000000000000000000000000000000000000000000000000000000000000000000000000000000000000000000000000000000000000000000000000000000000000

  /**
   * `x` cut at a double's precision: `(q, r, u)` with `u` the gap between
   * the doubles around `x`, `q` the significand `x / u` and `r` the
   * remainder `x % u`.
   */
  function Cut(x: nat): (t: (nat, nat, nat))
    ensures t.0 < SAFE && t.1 < t.2
  {
    if x < SAFE then (x, 0, 1)
    else
      var t := Cut(x / 2);
      (t.0, 2 * t.1 + x % 2, 2 * t.2)
  }

  /** `m` times the gap `Cut(x)` finds. */
  function Scaled(m: nat, x: nat): nat {
    if x < SAFE then m else 2 * Scaled(m, x / 2)
  }

  /**
   * The Number nearest to the integer `x`, ties going to the even
   * significand; `None` is `Infinity`.
   */
  function ToNumber(x: nat): (n: Option<int>)
    ensures n.Some? ==> 0 <= n.value < OVERFLOW
  {
    var t := Cut(x);
    var m := if 2 * t.1 > t.2 || (2 * t.1 == t.2 && t.0 % 2 == 1) then t.0 + 1 else t.0;
    var v := Scaled(m, x);
    if v >= OVERFLOW then None else Some(v)
  }

  /** Integers below 2^53 are Numbers as they are. */
  lemma ExactBelowSafe(x: nat)
    requires x < SAFE
    ensures ToNumber(x) == Some(x)
  {
  }

  /**
   * `parseInt(s, 16)`: leading white space skipped, an optional sign, an
   * optional `0x`, then the longest run of hex digits, whose value is
   * rounded to a Number. `None` is `NaN` or an infinity, both of which
   * `ToInt32` reads as 0.
   */
  function ParseHex(s: string): (n: Option<int>)
    ensures n.Some? ==> n.value < OVERFLOW && -n.value < OVERFLOW
  {
    var t := TrimStartBy(s, IsJsSpace);
    var v := Unprefixed(Unsigned(t));
    var n := HexRun(v);
    var x := ToNumber(HexValue(v[..n]));
    if n == 0 || x.None? then None else if t[0] == '-' then Some(-x.value) else Some(x.value)
  }

  /** `s.replace('#', '')`: the first `#`, if any, removed. */
  function DropHash(s: string): (r: string)
    ensures '#' !in s ==> r == s
  {
    var i := IndexOf(s, '#');
    if i < 0 then s else s[..i] + s[i + 1..]
  }

  /** `h.split('').map((c) => c + c).join('')`. */
  function Doubled(h: string): (r: string)
    ensures |r| == 2 * |h|
    ensures forall i :: 0 <= i < |h| ==> r[2 * i] == h[i] && r[2 * i + 1] == h[i]
  {
    if h == [] then [] else [h[0], h[0]] + Doubled(h[1..])
  }

  datatype Rgb = Rgb(r: int, g: int, b: int)

  /** `ToInt32` followed by `>> shift & 255`: eight bits of the 32-bit two's complement; `NaN` reads as 0. */
  function Channel(n: Option<int>, shift: nat): (c: int)
    ensures 0 <= c < 256
  {
    match n
    case None => 0
    case Some(x) =>
      var u := x % 0x1_0000_0000;
      if shift == 16 then u / 0x1_0000 % 256
      else if shift == 8 then u / 0x100 % 256
      else u % 256
  }

  /** A character beyond the Basic Multilingual Plane: two UTF-16 code units. */
  predicate Astral(c: char) {
    c as int >= 0x1_0000
  }

  /** `s.length`: UTF-16 code units, two for a character beyond the Basic Multilingual Plane. */
  function Utf16Length(s: string): (n: nat)
    ensures |s| <= n <= 2 * |s|
  {
    if s == [] then 0 else Utf16Length(s[..|s| - 1]) + (if Astral(s[|s| - 1]) then 2 else 1)
  }

  /** `h.length === 3`, spelled out: three characters in the plane, or two of which one is beyond it. */
  predicate ThreeUnits(h: string) {
    (|h| == 3 && !Astral(h[0]) && !Astral(h[1]) && !Astral(h[2])) ||
    (|h| == 2 && Astral(h[0]) != Astral(h[1]))
  }

  /** The spelled-out test is the code-unit count. */
  lemma ThreeUnitsIff(h: string)
    ensures ThreeUnits(h) <==> Utf16Length(h) == 3
  {
    if |h| == 2 || |h| == 3 {
      assert h[..|h| - 1][..|h| - 2] == h[..|h| - 2];
      if |h| == 3 {
        assert h[..1][..0] == [];
      } else {
        assert h[..1][..0] == [];
      }
    }
  }

  /** Text within the Basic Multilingual Plane is one code unit per character. */
  lemma {:induction false} Utf16LengthPlane(s: string)
    requires forall i :: 0 <= i < |s| ==> !Astral(s[i])
    ensures Utf16Length(s) == |s|
  {
    if s != [] {
      Utf16LengthPlane(s[..|s| - 1]);
    }
  }

  /**
   * The digits `parseInt` reads: the text without its `#`, each character
   * doubled when it is three code units long. `split('')` cuts a character
   * beyond the Basic Multilingual Plane into two halves, neither a hex
   * digit, so doubling whole characters leaves the same leading digits.
   */
  function Expanded(hex: string): string {
    var h := DropHash(hex);
    if ThreeUnits(h) then Doubled(h) else h
  }

  /** `hexToRgb(hex)`. */
  function HexToRgb(hex: string): (c: Rgb)
    ensures 0 <= c.r < 256 && 0 <= c.g < 256 && 0 <= c.b < 256
  {
    var n := ParseHex(Expanded(hex));
    Rgb(Channel(n, 16), Channel(n, 8), Channel(n, 0))
  }

  /** Text without a hex digit is `NaN` to `parseInt`. */
  lemma ParseNoDigits(s: string)
    requires forall i :: 0 <= i < |s| ==> !IsHexDigit(s[i])
    ensures ParseHex(s).None?
  {
    NoDigitsRun(s);
  }

  /** Without hex digits, the run `parseInt` reads is empty. */
  lemma NoDigitsRun(s: string)
    requires forall i :: 0 <= i < |s| ==> !IsHexDigit(s[i])
    ensures HexRun(Unprefixed(Unsigned(TrimStartBy(s, IsJsSpace)))) == 0
  {
    var t := TrimStartBy(s, IsJsSpace);
    var u := Unsigned(t);
    assert |u| <= |s| && u == s[|s| - |u|..];
    SuffixNoDigit(s, |s| - |u|);
    NoLeadingDigit(u);
  }

  lemma SuffixNoDigit(s: string, k: nat)
    requires k <= |s|
    requires forall i :: 0 <= i < |s| ==> !IsHexDigit(s[i])
    ensures s[k..] == [] || !IsHexDigit(s[k..][0])
  {
  }

  /** `0x` starts with a digit, so text that does not start with one is read as no digits. */
  lemma NoLeadingDigit(u: string)
    requires u == [] || !IsHexDigit(u[0])
    ensures HexRun(Unprefixed(u)) == 0
  {
    assert Unprefixed(u) == u;
  }

  /** Dropping the `#` adds no hex digit. */
  lemma DropHashNoDigits(hex: string)
    requires forall i :: 0 <= i < |hex| ==> !IsHexDigit(hex[i])
    ensures forall i :: 0 <= i < |DropHash(hex)| ==> !IsHexDigit(DropHash(hex)[i])
  {
    var k := IndexOf(hex, '#');
    if k >= 0 {
      var h := DropHash(hex);
      forall i | 0 <= i < |h| ensures !IsHexDigit(h[i]) {
        assert h[i] == if i < k then hex[i] else hex[i + 1];
      }
    }
  }

  /** Doubling adds no hex digit. */
  lemma DoubledNoDigits(h: string)
    requires forall i :: 0 <= i < |h| ==> !IsHexDigit(h[i])
    ensures forall i :: 0 <= i < |Doubled(h)| ==> !IsHexDigit(Doubled(h)[i])
  {
    var full := Doubled(h);
    forall i | 0 <= i < |full| ensures !IsHexDigit(full[i]) {
      var q := i / 2;
      if i % 2 == 0 {
        assert i == 2 * q;
      } else {
        assert i == 2 * q + 1;
      }
      assert full[i] == h[q];
    }
  }

  /** A colour without a hex digit is black. */
  lemma NoDigitsIsBlack(hex: string)
    requires forall i :: 0 <= i < |hex| ==> !IsHexDigit(hex[i])
    ensures HexToRgb(hex) == Rgb(0, 0, 0)
  {
    ExpandedNoDigits(hex);
    ParseNoDigits(Expanded(hex));
    BlackOfNaN(hex);
  }

  /** A text that parses as `NaN` is black. */
  lemma BlackOfNaN(hex: string)
    requires ParseHex(Expanded(hex)).None?
    ensures HexToRgb(hex) == Rgb(0, 0, 0)
  {
  }

  /** Expanding adds no hex digit. */
  lemma ExpandedNoDigits(hex: string)
    requires forall i :: 0 <= i < |hex| ==> !IsHexDigit(hex[i])
    ensures forall i :: 0 <= i < |Expanded(hex)| ==> !IsHexDigit(Expanded(hex)[i])
  {
    var h := DropHash(hex);
    DropHashNoDigits(hex);
    if ThreeUnits(h) {
      DoubledNoDigits(h);
    }
  }

  // ---------------------------------------------------------------- writing colours

  /** The lower-case hex digit for a value below 16. */
  function HexChar(k: nat): (c: char)
    requires k < 16
    ensures IsHexDigit(c) && HexDigitValue(c) == k
  {
    if k < 10 then ('0' as int + k) as char else ('a' as int + k - 10) as char
  }

  /** Two lower-case hex digits for a byte. */
  function Hex2(x: nat): (d: string)
    requires x < 256
    ensures |d| == 2 && IsHexDigit(d[0]) && IsHexDigit(d[1])
  {
    [HexChar(x / 16), HexChar(x % 16)]
  }

  /** `#rrggbb`. */
  function RgbHex(c: Rgb): string
    requires 0 <= c.r < 256 && 0 <= c.g < 256 && 0 <= c.b < 256
  {
    "#" + Hex2(c.r) + Hex2(c.g) + Hex2(c.b)
  }

  /** Two digits read back as the value they were written from. */
  lemma TwoDigitValue(x: char, y: char)
    ensures HexValue([x, y]) == HexDigitValue(x) * 16 + HexDigitValue(y)
  {
    var s := [x, y];
    assert s[..1] == [x];
    assert HexValue(s) == HexValue([x]) * 16 + HexDigitValue(y);
    assert [x][..0] == [];
    assert HexValue([x]) == HexValue([]) * 16 + HexDigitValue(x);
  }

  lemma Hex2Value(x: nat)
    requires x < 256
    ensures HexValue(Hex2(x)) == x
  {
    TwoDigitValue(HexChar(x / 16), HexChar(x % 16));
  }

  /** Appending two digits shifts the value left by a byte. */
  lemma AppendTwoDigits(a: string, x: char, y: char)
    ensures HexValue(a + [x, y]) == HexValue(a) * 0x100 + HexDigitValue(x) * 16 + HexDigitValue(y)
  {
    var ax := a + [x];
    assert (a + [x, y])[..|a| + 1] == ax;
    assert (a + [x, y])[|a| + 1] == y;
    assert ax[..|a|] == a;
    assert ax[|a|] == x;
  }

  /** Six digits written from three bytes read back as the 24-bit number. */
  lemma SixDigitValue(c: Rgb)
    requires 0 <= c.r < 256 && 0 <= c.g < 256 && 0 <= c.b < 256
    ensures HexValue(Hex2(c.r) + Hex2(c.g) + Hex2(c.b)) == c.r * 0x1_0000 + c.g * 0x100 + c.b
  {
    Hex2Value(c.r);
    var g, b := Hex2(c.g), Hex2(c.b);
    AppendTwoDigits(Hex2(c.r), g[0], g[1]);
    assert g == [g[0], g[1]] && b == [b[0], b[1]];
    AppendTwoDigits(Hex2(c.r) + g, b[0], b[1]);
  }

  /** Text starting with a hex digit has no leading space to skip. */
  lemma NoSpaceToSkip(d: string)
    requires |d| >= 1 && IsHexDigit(d[0])
    ensures TrimStartBy(d, IsJsSpace) == d
  {
    assert !IsJsSpace(d[0]);
    TrimStartOfTrimmed(d, IsJsSpace);
  }

  /** Text starting with two hex digits (or one, alone) has no sign or `0x` to skip. */
  lemma NoSignToSkip(d: string)
    requires |d| >= 1 && IsHexDigit(d[0])
    requires |d| >= 2 ==> IsHexDigit(d[1])
    ensures Unprefixed(Unsigned(d)) == d
  {
    assert Unsigned(d) == d;
  }

  /** The leading run of an all-digit text is all of it. */
  lemma {:induction false} RunOfDigits(d: string)
    requires forall i :: 0 <= i < |d| ==> IsHexDigit(d[i])
    ensures HexRun(d) == |d|
  {
    if d != [] {
      RunOfDigits(d[1..]);
    }
  }

  /** `16^k`. */
  function Pow16(k: nat): nat {
    if k == 0 then 1 else 16 * Pow16(k - 1)
  }

  /** A run of `k` digits is worth less than `16^k`. */
  lemma {:induction false} HexValueBelow(d: string)
    ensures HexValue(d) < Pow16(|d|)
  {
    if d != [] {
      HexValueBelow(d[..|d| - 1]);
    }
  }

  lemma {:induction false} Pow16Monotone(j: nat, k: nat)
    requires j <= k
    ensures Pow16(j) <= Pow16(k)
  {
    if j < k {
      Pow16Monotone(j, k - 1);
    }
  }

  /** Thirteen hex digits or fewer are below 2^53. */
  lemma ShortRunIsSafe(d: string)
    requires |d| <= 13
    ensures HexValue(d) < SAFE
  {
    HexValueBelow(d);
    Pow16Monotone(|d|, 13);
    assert Pow16(13) == 0x10_0000_0000_0000;
  }

  /** Text that opens with two hex digits, or is one, parses as its leading run's value rounded to a Number. */
  lemma ParseRun(s: string)
    requires s != [] && IsHexDigit(s[0])
    requires |s| >= 2 ==> IsHexDigit(s[1])
    ensures ParseHex(s) == ToNumber(HexValue(s[..HexRun(s)]))
  {
    NoSpaceToSkip(s);
    NoSignToSkip(s);
    assert s[0] != '-';
  }

  /** A run made only of hex digits parses as its value rounded to a Number. */
  lemma ParseDigits(d: string)
    requires d != [] && forall i :: 0 <= i < |d| ==> IsHexDigit(d[i])
    ensures ParseHex(d) == ToNumber(HexValue(d))
  {
    RunOfDigits(d);
    assert d[..HexRun(d)] == d;
    ParseRun(d);
  }

  /** Digits worth less than 2^53, as thirteen or fewer always are, parse as their exact value. */
  lemma ParseSafeDigits(d: string)
    requires d != [] && forall i :: 0 <= i < |d| ==> IsHexDigit(d[i])
    requires HexValue(d) < SAFE
    ensures ParseHex(d) == Some(HexValue(d))
  {
    ParseDigits(d);
    ExactBelowSafe(HexValue(d));
  }

  /** The channels of a 24-bit number are its three bytes. */
  lemma ChannelsOf24(c: Rgb)
    requires 0 <= c.r < 256 && 0 <= c.g < 256 && 0 <= c.b < 256
    ensures var n := Some(c.r * 0x1_0000 + c.g * 0x100 + c.b);
      Channel(n, 16) == c.r && Channel(n, 8) == c.g && Channel(n, 0) == c.b
  {
    var v := c.r * 0x1_0000 + c.g * 0x100 + c.b;
    assert v < 0x1_0000_0000;
    assert v / 0x1_0000 == c.r;
    assert v / 0x100 == c.r * 0x100 + c.g;
    assert (c.r * 0x100 + c.g) % 256 == c.g;
  }

  /**
   * The colour of a text that expands to a run of hex digits is read off
   * the run's value rounded to a Number.
   */
  lemma ColorOfDigits(hex: string, d: string, n: nat)
    requires Expanded(hex) == d
    requires d != [] && forall i :: 0 <= i < |d| ==> IsHexDigit(d[i])
    requires HexValue(d) == n
    ensures var x := ToNumber(n); HexToRgb(hex) == Rgb(Channel(x, 16), Channel(x, 8), Channel(x, 0))
  {
    ParseDigits(d);
  }

  /** Below 2^53 the colour is read off the run's exact value. */
  lemma ColorOfSafeDigits(hex: string, d: string, n: nat)
    requires Expanded(hex) == d
    requires d != [] && forall i :: 0 <= i < |d| ==> IsHexDigit(d[i])
    requires HexValue(d) == n && n < SAFE
    ensures HexToRgb(hex) == Rgb(Channel(Some(n), 16), Channel(Some(n), 8), Channel(Some(n), 0))
  {
    ParseSafeDigits(d);
  }

  /** `#` and six digits expand to the six digits. */
  lemma ExpandedSix(d: string)
    requires |d| == 6 && '#' !in d
    ensures Expanded("#" + d) == d
  {
    assert IndexOf("#" + d, '#') == 0;
    assert DropHash("#" + d) == d;
  }

  /** Reading back a colour written as `#rrggbb` gives the colour. */
  lemma SixDigitRoundTrip(c: Rgb)
    requires 0 <= c.r < 256 && 0 <= c.g < 256 && 0 <= c.b < 256
    ensures HexToRgb(RgbHex(c)) == c
  {
    var d := Hex2(c.r) + Hex2(c.g) + Hex2(c.b);
    assert RgbHex(c) == "#" + d;
    assert forall i :: 0 <= i < |d| ==> IsHexDigit(d[i]);
    ExpandedSix(d);
    SixDigitValue(c);
    ColorOfChannels(RgbHex(c), d, c);
  }

  /** The value of six digits, byte by byte. */
  lemma SixDigits(d: string)
    requires |d| == 6
    ensures HexValue(d) ==
      (HexDigitValue(d[0]) * 16 + HexDigitValue(d[1])) * 0x1_0000 +
      (HexDigitValue(d[2]) * 16 + HexDigitValue(d[3])) * 0x100 +
      HexDigitValue(d[4]) * 16 + HexDigitValue(d[5])
  {
    assert d[..2] == [d[0], d[1]];
    TwoDigitValue(d[0], d[1]);
    assert d[..4] == d[..2] + [d[2], d[3]];
    AppendTwoDigits(d[..2], d[2], d[3]);
    assert d == d[..4] + [d[4], d[5]];
    AppendTwoDigits(d[..4], d[4], d[5]);
  }

  /** `#rgb` expands to each digit twice. */
  lemma ExpandedThree(hex: string)
    requires |hex| == 4 && hex[0] == '#'
    requires IsHexDigit(hex[1]) && IsHexDigit(hex[2]) && IsHexDigit(hex[3])
    ensures Expanded(hex) == [hex[1], hex[1], hex[2], hex[2], hex[3], hex[3]]
  {
    assert IndexOf(hex, '#') == 0;
    var h := hex[1..];
    assert DropHash(hex) == h;
    assert !Astral(h[0]) && !Astral(h[1]) && !Astral(h[2]);
    assert ThreeUnits(h);
    DoubledThree(h);
  }

  /** Three digits doubled, spelled out. */
  lemma DoubledThree(h: string)
    requires |h| == 3
    ensures Doubled(h) == [h[0], h[0], h[1], h[1], h[2], h[2]]
  {
    var d := Doubled(h);
    assert d[2 * 0] == h[0] && d[2 * 0 + 1] == h[0];
    assert d[2 * 1] == h[1] && d[2 * 1 + 1] == h[1];
    assert d[2 * 2] == h[2] && d[2 * 2 + 1] == h[2];
  }

  /** Six digits made of three doubled ones: all digits, and each pair is its digit times 17. */
  lemma DoubledDigits(a: char, b: char, c: char, col: Rgb)
    requires IsHexDigit(a) && IsHexDigit(b) && IsHexDigit(c)
    requires col == Rgb(17 * HexDigitValue(a), 17 * HexDigitValue(b), 17 * HexDigitValue(c))
    ensures forall i :: 0 <= i < 6 ==> IsHexDigit([a, a, b, b, c, c][i])
    ensures HexValue([a, a, b, b, c, c]) == col.r * 0x1_0000 + col.g * 0x100 + col.b
    ensures 0 <= col.r < 256 && 0 <= col.g < 256 && 0 <= col.b < 256
  {
    var d := [a, a, b, b, c, c];
    forall i | 0 <= i < 6 ensures IsHexDigit(d[i]) {
      if i < 2 {
        assert d[i] == a;
      } else if i < 4 {
        assert d[i] == b;
      } else {
        assert d[i] == c;
      }
    }
    SixDigits(d);
  }

  /** `#rgb` reads as `#rrggbb`: each channel is its digit times 17. */
  lemma ThreeDigitForm(hex: string)
    requires |hex| == 4 && hex[0] == '#'
    requires IsHexDigit(hex[1]) && IsHexDigit(hex[2]) && IsHexDigit(hex[3])
    ensures HexToRgb(hex) ==
      Rgb(17 * HexDigitValue(hex[1]), 17 * HexDigitValue(hex[2]), 17 * HexDigitValue(hex[3]))
  {
    var c := Rgb(17 * HexDigitValue(hex[1]), 17 * HexDigitValue(hex[2]), 17 * HexDigitValue(hex[3]));
    ExpandedThree(hex);
    DoubledDigits(hex[1], hex[2], hex[3], c);
    ColorOfChannels(hex, [hex[1], hex[1], hex[2], hex[2], hex[3], hex[3]], c);
  }

  /** Digits whose value packs three channels read back as those channels. */
  lemma ColorOfChannels(hex: string, d: string, c: Rgb)
    requires Expanded(hex) == d
    requires d != [] && forall i :: 0 <= i < |d| ==> IsHexDigit(d[i])
    requires 0 <= c.r < 256 && 0 <= c.g < 256 && 0 <= c.b < 256
    requires HexValue(d) == c.r * 0x1_0000 + c.g * 0x100 + c.b
    ensures HexToRgb(hex) == c
  {
    ColorOfSafeDigits(hex, d, c.r * 0x1_0000 + c.g * 0x100 + c.b);
    ChannelsOf24(c);
  }
}
