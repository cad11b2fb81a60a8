/**
 * The older base class's static conversion helpers. They compute what the
 * newer helpers compute and then round: whole numbers for RGB channels and
 * for the hue, two decimals for every other ratio. RGB to HSV and RGB to
 * HWB start from the already rounded HSL triple.
 */
module LegacyKernel {
  import opened Wrappers
  import opened Numbers
  import opened Spaces
  import opened Conversions
  import opened Kernel

  /** HSV to RGB with every channel rounded to a whole number; it throws when the exact one does. */
  function LegacyHsvToRgb(h: real, s: real, v: real): (x: Result<Values, Fault>)
    ensures x.Failure? <==> HsvToRgb(h, s, v).Failure?
    ensures x.Failure? ==> x.error == Thrown
    ensures x.Success? ==> x.value.Rgb? && IsInt(x.value.r) && IsInt(x.value.g) && IsInt(x.value.b)
  {
    var exact :- HsvToRgb(h, s, v);
    Success(Rgb(Round(exact.r) as real, Round(exact.g) as real, Round(exact.b) as real))
  }

  /**
   * For a non-negative hue and s, v in [0, 1] the rounded channels are whole
   * numbers in [0, 255], each within a half of the exact channel.
   */
  lemma LegacyHsvToRgbBounds(h: real, s: real, v: real)
    requires 0.0 <= h && 0.0 <= s <= 1.0 && 0.0 <= v <= 1.0
    ensures LegacyHsvToRgb(h, s, v).Success?
    ensures var x := LegacyHsvToRgb(h, s, v).value;
      var e := HsvToRgb(h, s, v).value;
      0.0 <= x.r <= 255.0 && 0.0 <= x.g <= 255.0 && 0.0 <= x.b <= 255.0 &&
      Abs(x.r - e.r) <= 0.5 && Abs(x.g - e.g) <= 0.5 && Abs(x.b - e.b) <= 0.5
  {
    HsvToRgbBounds(h, s, v);
    var e := HsvToRgb(h, s, v).value;
    MulUnit(255.0, v);
    RoundWithin(e.r, 0, 255);
    RoundWithin(e.g, 0, 255);
    RoundWithin(e.b, 0, 255);
  }

  /** RGB to CMYK with every ink and the key rounded to two decimals. */
  function LegacyRgbToCmyk(r: real, g: real, b: real): (x: Values)
    ensures x.Cmyk? && IsInt(100.0 * x.c) && IsInt(100.0 * x.m) && IsInt(100.0 * x.y) && IsInt(100.0 * x.k)
  {
    var exact := RgbToCmyk(r, g, b);
    if exact.k == 1.0 then Cmyk(0.0, 0.0, 0.0, 1.0)
    else Cmyk(Round2(exact.c), Round2(exact.m), Round2(exact.y), Round2(exact.k))
  }

  /**
   * Each rounded ink lies within 0.005 of the exact one, and in gamut all
   * of them stay in [0, 1]; black still gives exactly (0, 0, 0, 1).
   */
  lemma LegacyRgbToCmykClose(r: real, g: real, b: real)
    requires InGamut(r, g, b)
    ensures var x := LegacyRgbToCmyk(r, g, b);
      var e := RgbToCmyk(r, g, b);
      Abs(x.c - e.c) <= 0.005 && Abs(x.m - e.m) <= 0.005 &&
      Abs(x.y - e.y) <= 0.005 && Abs(x.k - e.k) <= 0.005 &&
      0.0 <= x.c <= 1.0 && 0.0 <= x.m <= 1.0 && 0.0 <= x.y <= 1.0 && 0.0 <= x.k <= 1.0
    ensures Max3(r, g, b) == 0.0 ==> LegacyRgbToCmyk(r, g, b) == Cmyk(0.0, 0.0, 0.0, 1.0)
  {
    RgbToCmykBlack(r, g, b);
    var e := RgbToCmyk(r, g, b);
    if Max3(r, g, b) != 0.0 {
      RgbToCmykInks(r, g, b);
      Round2Unit(e.c);
      Round2Unit(e.m);
      Round2Unit(e.y);
      Round2Unit(e.k);
    }
  }

  /**
   * Rounding the key loses dark colours: rgb(1, 0, 0) has key 1 - 1 / 255,
   * which rounds to 1, so the older CMYK triple (0, 1, 1, 1) converts back
   * to black.
   */
  lemma LegacyCmykLosesDarkRed()
    ensures LegacyRgbToCmyk(1.0, 0.0, 0.0) == Cmyk(0.0, 1.0, 1.0, 1.0)
    ensures CmykToRgb(0.0, 1.0, 1.0, 1.0) == Rgb(0.0, 0.0, 0.0)
  {
    assert Max3(1.0 / 255.0, 0.0, 0.0) == 1.0 / 255.0;
    var e := RgbToCmyk(1.0, 0.0, 0.0);
    assert e == Cmyk(0.0, 1.0, 1.0, 1.0 - 1.0 / 255.0);
    assert Round(100.0 * (1.0 - 1.0 / 255.0)) == 100;
    RoundInt(0);
    RoundInt(100);
  }

  /** The older hue: round(60 times the raw hue), with 360 added when negative. */
  function LegacyHue(r1: real, g1: real, b1: real): (h: int)
    requires Max3(r1, g1, b1) != Min3(r1, g1, b1)
    ensures 0 <= h < 360
  {
    var raw := RawHue(r1, g1, b1);
    RoundWithin(raw, -60, 300);
    var n := Round(raw);
    if n < 0 then n + 360 else n
  }

  /**
   * RGB to HSL with the hue rounded to a whole degree and saturation and
   * lightness to two decimals; a grey gives (0, 0, l).
   */
  function LegacyRgbToHsl(r: real, g: real, b: real): (x: Values)
    requires HslDefined(r, g, b)
    ensures x.Hsl? && IsInt(x.h) && 0.0 <= x.h < 360.0 && IsInt(100.0 * x.s) && IsInt(100.0 * x.l)
  {
    var r1 := r / 255.0;
    var g1 := g / 255.0;
    var b1 := b / 255.0;
    var hi := Max3(r1, g1, b1);
    var lo := Min3(r1, g1, b1);
    var l := (hi + lo) / 2.0;
    if hi == lo then Hsl(0.0, 0.0, Round2(l))
    else
      var s := if l <= 0.5 then (hi - lo) / (hi + lo) else (hi - lo) / (2.0 - hi - lo);
      Hsl(LegacyHue(r1, g1, b1) as real, Round2(s), Round2(l))
  }

  /**
   * The older triple is the newer one rounded: the hue is the exact hue
   * rounded to a whole degree, except that an exact hue that rounds to 360
   * becomes 0; saturation and lightness are the exact ones rounded to two
   * decimals.
   */
  lemma LegacyRgbToHslRounds(r: real, g: real, b: real)
    requires HslDefined(r, g, b)
    ensures var x := LegacyRgbToHsl(r, g, b);
      var e := RgbToHsl(r, g, b);
      x.h == (if Round(e.h) == 360 then 0.0 else Round(e.h) as real) &&
      x.s == Round2(e.s) && x.l == Round2(e.l)
  {
    var r1 := r / 255.0;
    var g1 := g / 255.0;
    var b1 := b / 255.0;
    if Max3(r1, g1, b1) != Min3(r1, g1, b1) {
      var raw := RawHue(r1, g1, b1);
      if raw < 0.0 {
        RoundShift(raw, 360);
      }
    } else {
      RoundInt(0);
      Round2Hundredths(0);
    }
  }

  /** Adding a whole number n before rounding adds n to the result. */
  lemma RoundShift(x: real, n: int)
    ensures Round(x + n as real) == Round(x) + n
  {
  }

  /**
   * rgb(255, 0, 1) lies 60 / 255 degrees below red: the newer helper keeps
   * the hue 359.76..., which rounds to 360, while the older one rounds the
   * negative raw hue to 0 before wrapping.
   */
  lemma LegacyHueNearRed()
    ensures RgbToHsl(255.0, 0.0, 1.0).h == 360.0 - 60.0 / 255.0
    ensures Round(RgbToHsl(255.0, 0.0, 1.0).h) == 360
    ensures LegacyRgbToHsl(255.0, 0.0, 1.0).h == 0.0
  {
    assert Max3(1.0, 0.0, 1.0 / 255.0) == 1.0;
    assert Min3(1.0, 0.0, 1.0 / 255.0) == 0.0;
    assert RawHue(1.0, 0.0, 1.0 / 255.0) == -60.0 / 255.0;
  }

  /**
   * RGB to HSV from the rounded HSL triple, with saturation and value
   * rounded again to two decimals.
   */
  function LegacyRgbToHsv(r: real, g: real, b: real): (x: Values)
    requires HslDefined(r, g, b)
    ensures x.Hsv? && x.h == LegacyRgbToHsl(r, g, b).h && IsInt(100.0 * x.s) && IsInt(100.0 * x.v)
  {
    var hsl := LegacyRgbToHsl(r, g, b);
    var exact := HslToHsv(hsl.h, hsl.s, hsl.l);
    Hsv(exact.h, Round2(exact.s), Round2(exact.v))
  }

  /** In gamut the older HSV saturation and value lie in [0, 1] and the value is at least the lightness. */
  lemma LegacyRgbToHsvBounds(r: real, g: real, b: real)
    requires InGamut(r, g, b)
    ensures HslDefined(r, g, b)
    ensures var x := LegacyRgbToHsv(r, g, b);
      0.0 <= x.s <= 1.0 && 0.0 <= x.v <= 1.0 && LegacyRgbToHsl(r, g, b).l <= x.v
  {
    RgbToHslBounds(r, g, b);
    LegacyRgbToHslRounds(r, g, b);
    var e := RgbToHsl(r, g, b);
    Round2Unit(e.s);
    Round2Unit(e.l);
    var hsl := LegacyRgbToHsl(r, g, b);
    HslToHsvBounds(hsl.h, hsl.s, hsl.l);
    var y := HslToHsv(hsl.h, hsl.s, hsl.l);
    Round2Unit(y.s);
    Round2Unit(y.v);
    Round2Monotone(hsl.l, y.v);
    Round2Fixed(hsl.l);
  }

  /** Round2 is monotone. */
  lemma Round2Monotone(x: real, y: real)
    requires x <= y
    ensures Round2(x) <= Round2(y)
  {
    RoundMonotone(100.0 * x, 100.0 * y);
  }

  /** A value with two decimals is its own Round2. */
  lemma Round2Fixed(x: real)
    requires IsInt(100.0 * x)
    ensures Round2(x) == x
  {
    var n := (100.0 * x).Floor;
    assert x == n as real / 100.0;
    Round2Hundredths(n);
  }

  /**
   * RGB to HWB: the older (rounded) hue, and whiteness and blackness
   * rounded to two decimals.
   */
  function LegacyRgbToHwb(r: real, g: real, b: real): (x: Values)
    requires HslDefined(r, g, b)
    ensures x.Hwb? && x.h == LegacyRgbToHsl(r, g, b).h && IsInt(100.0 * x.w) && IsInt(100.0 * x.k)
  {
    var exact := RgbToHwb(r, g, b);
    Hwb(LegacyRgbToHsl(r, g, b).h, Round2(exact.w), Round2(exact.k))
  }

  /**
   * The rounded whiteness and blackness lie within 0.005 of min / 255 and
   * 1 - max / 255, and in gamut inside [0, 1].
   */
  lemma LegacyRgbToHwbClose(r: real, g: real, b: real)
    requires HslDefined(r, g, b)
    ensures var x := LegacyRgbToHwb(r, g, b);
      Abs(x.w - Min3(r, g, b) / 255.0) <= 0.005 && Abs(x.k - (1.0 - Max3(r, g, b) / 255.0)) <= 0.005
    ensures InGamut(r, g, b) ==>
      var x := LegacyRgbToHwb(r, g, b); 0.0 <= x.w <= 1.0 && 0.0 <= x.k <= 1.0
  {
    RgbToHwbChannels(r, g, b);
    var e := RgbToHwb(r, g, b);
    if InGamut(r, g, b) {
      Round2Unit(e.w);
      Round2Unit(e.k);
    }
  }

  /**
   * The older CMYK key and the older HWB blackness of a colour are the same
   * number, 1 - max / 255 rounded to two decimals (1 exactly for black), so
   * the shared slot `_k` holds the same value whichever tuple wrote it.
   */
  lemma LegacyKeyIsBlackness(r: real, g: real, b: real)
    requires HslDefined(r, g, b)
    ensures LegacyRgbToCmyk(r, g, b).k == LegacyRgbToHwb(r, g, b).k
  {
    RgbToHwbChannels(r, g, b);
    ScaledExtremes(r, g, b);
    if RgbToCmyk(r, g, b).k == 1.0 {
      Round2Hundredths(100);
    }
  }
}
