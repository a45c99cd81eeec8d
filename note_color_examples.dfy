/**
 * Worked colours that fall outside the everyday case: a colour longer than a
 * double can hold exactly, and one whose length in code units differs from
 * its number of characters.
 */
module NoteColorExamples {
  import opened Common
  import opened Text
  import opened NoteColors

  /** `k` digits `f`. */
  function Effs(k: nat): (d: string)
    ensures |d| == k && forall i :: 0 <= i < k ==> d[i] == 'f'
  {
    if k == 0 then [] else Effs(k - 1) + ['f']
  }

  /** `k` digits `f` are worth `16^k - 1`. */
  lemma {:induction false} EffsValue(k: nat)
    ensures HexValue(Effs(k)) + 1 == Pow16(k)
  {
    if k > 0 {
      EffsValue(k - 1);
      assert Effs(k)[..k - 1] == Effs(k - 1);
    }
  }

  lemma {:induction false} Pow16Add(a: nat, b: nat)
    ensures Pow16(a + b) == Pow16(a) * Pow16(b)
  {
    if b > 0 {
      Pow16Add(a, b - 1);
    }
  }

  /** Fourteen digits `f` are 2^56 - 1. */
  lemma FourteenEffs()
    ensures HexValue(Effs(14)) == 0xff_ffff_ffff_ffff
  {
    EffsValue(14);
    assert Pow16(4) == 0x1_0000;
    Pow16Add(4, 4);
    Pow16Add(8, 4);
    Pow16Add(12, 2);
  }

  /** 2^56 - 1 has three bits past a double's precision, all ones: it rounds up to 2^56. */
  lemma RoundsUpToPower()
    ensures ToNumber(0xff_ffff_ffff_ffff) == Some(0x100_0000_0000_0000)
  {
    var q := 0x1f_ffff_ffff_ffff;
    assert Cut(q) == (q, 0, 1);
    assert Cut(0x3f_ffff_ffff_ffff) == (q, 1, 2);
    assert Cut(0x7f_ffff_ffff_ffff) == (q, 3, 4);
    assert Cut(0xff_ffff_ffff_ffff) == (q, 7, 8);
    assert Scaled(0x20_0000_0000_0000, 0x3f_ffff_ffff_ffff) == 0x40_0000_0000_0000;
    assert Scaled(0x20_0000_0000_0000, 0x7f_ffff_ffff_ffff) == 0x80_0000_0000_0000;
    assert Scaled(0x20_0000_0000_0000, 0xff_ffff_ffff_ffff) == 0x100_0000_0000_0000;
  }

  /** A colour whose digits are worth 2^56 - 1 reads as black: 2^56 has no bit in its low 32. */
  lemma RoundedColorIsBlack(hex: string, d: string)
    requires Expanded(hex) == d
    requires d != [] && forall i :: 0 <= i < |d| ==> IsHexDigit(d[i])
    requires HexValue(d) == 0xff_ffff_ffff_ffff
    ensures HexToRgb(hex) == Rgb(0, 0, 0)
  {
    RoundsUpToPower();
    ColorOfDigits(hex, d, 0xff_ffff_ffff_ffff);
    PowerChannels();
  }

  lemma PowerChannels()
    ensures Channel(Some(0x100_0000_0000_0000), 16) == 0
    ensures Channel(Some(0x100_0000_0000_0000), 8) == 0
    ensures Channel(Some(0x100_0000_0000_0000), 0) == 0
  {
  }

  lemma ExpandedEffs()
    ensures Expanded("#" + Effs(14)) == Effs(14)
  {
    var d := Effs(14);
    assert IndexOf("#" + d, '#') == 0;
    assert DropHash("#" + d) == d;
  }

  /**
   * Fourteen digits are past a double's precision: `#ffffffffffffff` is
   * 2^56 - 1, which `parseInt` rounds to 2^56, so the colour reads as black,
   * where its exact value would give white.
   */
  lemma LongColorRounds()
    ensures HexToRgb("#" + Effs(14)) == Rgb(0, 0, 0)
  {
    ExpandedEffs();
    FourteenEffs();
    RoundedColorIsBlack("#" + Effs(14), Effs(14));
  }

  /** The colour of the previous lemma, spelled out. */
  lemma FourteenEffsSpelled()
    ensures "#ffffffffffffff" == "#" + Effs(14)
  {
  }

  /**
   * `h.length` counts code units: `#a` and a character beyond the Basic
   * Multilingual Plane is three units long, so it is expanded. In JavaScript
   * `split('')` cuts that character into its two surrogate halves and doubles
   * each; the model doubles the whole character instead. Either way only the
   * leading `aa` reaches `parseInt`, so it reads as blue 170; counting
   * characters would read `a`, blue 10.
   */
  lemma AstralCountsTwice(c: char)
    requires Astral(c)
    ensures Expanded(['#', 'a', c]) == ['a', 'a', c, c]
    ensures HexToRgb(['#', 'a', c]) == Rgb(0, 0, 170)
  {
    AstralExpanded(c);
    AstralParse(c);
    ColorOfExpanded(['#', 'a', c], ['a', 'a', c, c]);
    BlueChannels();
  }

  lemma ColorOfExpanded(hex: string, e: string)
    requires Expanded(hex) == e
    ensures HexToRgb(hex) == Rgb(Channel(ParseHex(e), 16), Channel(ParseHex(e), 8), Channel(ParseHex(e), 0))
  {
  }

  lemma BlueChannels()
    ensures Channel(Some(170), 16) == 0
    ensures Channel(Some(170), 8) == 0
    ensures Channel(Some(170), 0) == 170
  {
  }

  lemma AstralExpanded(c: char)
    requires Astral(c)
    ensures Expanded(['#', 'a', c]) == ['a', 'a', c, c]
  {
    assert IndexOf(['#', 'a', c], '#') == 0;
    assert DropHash(['#', 'a', c]) == ['a', c];
    assert ThreeUnits(['a', c]);
    var d := Doubled(['a', c]);
    assert d[0] == 'a' && d[1] == 'a' && d[2] == c && d[3] == c;
  }

  lemma AstralRun(a: char, c: char)
    requires IsHexDigit(a) && Astral(c)
    ensures HexRun([a, a, c, c]) == 2
  {
    var full := [a, a, c, c];
    assert !IsHexDigit(c);
    assert HexRun([c, c]) == 0;
    assert full[1..] == [a, c, c] && full[1..][1..] == [c, c];
    assert HexRun([a, c, c]) == 1;
  }

  lemma AstralParse(c: char)
    requires Astral(c)
    ensures ParseHex(['a', 'a', c, c]) == Some(170)
  {
    AstralParseRun('a', c);
    TwoDigitValue('a', 'a');
    ExactBelowSafe(170);
  }

  lemma AstralParseRun(a: char, c: char)
    requires IsHexDigit(a) && Astral(c)
    ensures ParseHex([a, a, c, c]) == ToNumber(HexValue([a, a]))
  {
    var full := [a, a, c, c];
    AstralRun(a, c);
    assert full[..HexRun(full)] == [a, a];
    ParseRun(full);
  }
}
