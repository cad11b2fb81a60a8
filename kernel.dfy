/**
 * The newer base class's static conversion helpers, which keep full
 * precision: RGB to CMYK, HSL, HSV and HWB, and HSV to RGB by the sector
 * method. Channels are reals; RGB runs over 0..255 and every other ratio
 * over 0..1, hue over degrees.
 */
module Kernel {
  import opened Wrappers
  import opened Numbers
  import opened Spaces
  import opened Conversions

  /** All three RGB channels inside [0, 255]. */
  predicate InGamut(r: real, g: real, b: real) {
    0.0 <= r <= 255.0 && 0.0 <= g <= 255.0 && 0.0 <= b <= 255.0
  }

  /**
   * The divisions of RGB to HSL are by non-zero numbers: true for every
   * colour in gamut, and false only for some colours outside it (where the
   * source computes an infinite or NaN saturation).
   */
  predicate HslDefined(r: real, g: real, b: real) {
    var hi := Max3(r / 255.0, g / 255.0, b / 255.0);
    var lo := Min3(r / 255.0, g / 255.0, b / 255.0);
    hi == lo || (if (hi + lo) / 2.0 <= 0.5 then hi + lo != 0.0 else 2.0 - hi - lo != 0.0)
  }

  /** Every colour in gamut can be converted to HSL. */
  lemma InGamutDefined(r: real, g: real, b: real)
    requires InGamut(r, g, b)
    ensures HslDefined(r, g, b)
  {
  }

  /**
   * RGB to CMYK: k = 1 - max / 255; black gives (0, 0, 0, 1), any other
   * colour c = (1 - r' - k) / (1 - k) and likewise for m and y.
   */
  function RgbToCmyk(r: real, g: real, b: real): (x: Values)
    ensures x.Cmyk?
  {
    var r1 := r / 255.0;
    var g1 := g / 255.0;
    var b1 := b / 255.0;
    var k := 1.0 - Max3(r1, g1, b1);
    if k == 1.0 then Cmyk(0.0, 0.0, 0.0, 1.0)
    else Cmyk((1.0 - r1 - k) / (1.0 - k), (1.0 - g1 - k) / (1.0 - k), (1.0 - b1 - k) / (1.0 - k), k)
  }

  /** The result is exactly (0, 0, 0, 1) if and only if the largest channel is 0. */
  lemma RgbToCmykBlack(r: real, g: real, b: real)
    ensures RgbToCmyk(r, g, b) == Cmyk(0.0, 0.0, 0.0, 1.0) <==> Max3(r, g, b) == 0.0
  {
    ScaledExtremes(r, g, b);
  }

  /**
   * Max3 and Min3 commute with dividing every channel by 255.
   */
  lemma ScaledExtremes(r: real, g: real, b: real)
    ensures Max3(r / 255.0, g / 255.0, b / 255.0) == Max3(r, g, b) / 255.0
    ensures Min3(r / 255.0, g / 255.0, b / 255.0) == Min3(r, g, b) / 255.0
  {
  }

  /**
   * For a colour in gamut that is not black, each ink is the shortfall of
   * its channel from the largest one, (max - x) / max, so all inks lie in
   * [0, 1] and the largest channel gets ink 0; the key is 1 - max / 255.
   */
  lemma RgbToCmykInks(r: real, g: real, b: real)
    requires InGamut(r, g, b) && Max3(r, g, b) != 0.0
    ensures var x := RgbToCmyk(r, g, b);
      var hi := Max3(r, g, b);
      x.c == (hi - r) / hi && x.m == (hi - g) / hi && x.y == (hi - b) / hi &&
      x.k == 1.0 - hi / 255.0
    ensures var x := RgbToCmyk(r, g, b);
      0.0 <= x.c <= 1.0 && 0.0 <= x.m <= 1.0 && 0.0 <= x.y <= 1.0 && 0.0 <= x.k < 1.0
    ensures var x := RgbToCmyk(r, g, b);
      (r == Max3(r, g, b) ==> x.c == 0.0) &&
      (g == Max3(r, g, b) ==> x.m == 0.0) &&
      (b == Max3(r, g, b) ==> x.y == 0.0)
  {
    ScaledExtremes(r, g, b);
    var hi := Max3(r, g, b);
    Ink(r, hi);
    Ink(g, hi);
    Ink(b, hi);
    UnitQuotient(hi - r, hi);
    UnitQuotient(hi - g, hi);
    UnitQuotient(hi - b, hi);
  }

  /** (1 - x / 255 - k) / (1 - k) == (hi - x) / hi for k == 1 - hi / 255. */
  lemma Ink(x: real, hi: real)
    requires hi != 0.0
    ensures (1.0 - x / 255.0 - (1.0 - hi / 255.0)) / (1.0 - (1.0 - hi / 255.0)) == (hi - x) / hi
  {
    assert 1.0 - x / 255.0 - (1.0 - hi / 255.0) == (hi - x) / 255.0;
    assert 1.0 - (1.0 - hi / 255.0) == hi / 255.0;
    DivScaled(hi - x, hi);
  }

  /** (a / 255) / (d / 255) == a / d. */
  lemma DivScaled(a: real, d: real)
    requires d != 0.0
    ensures (a / 255.0) / (d / 255.0) == a / d
  {
    DivExact(a / 255.0, d / 255.0, a / d);
  }

  /**
   * Converting back with the CMYK class's formula recovers every RGB colour
   * with whole channels in [0, 255] exactly.
   */
  lemma CmykRgbRoundTrip(r: real, g: real, b: real)
    requires InGamut(r, g, b) && IsInt(r) && IsInt(g) && IsInt(b)
    ensures var x := RgbToCmyk(r, g, b);
      CmykToRgb(x.c, x.m, x.y, x.k) == Rgb(r, g, b)
  {
    var hi := Max3(r, g, b);
    var x := RgbToCmyk(r, g, b);
    if hi == 0.0 {
      RgbToCmykBlack(r, g, b);
      assert r == 0.0 && g == 0.0 && b == 0.0;
    } else {
      RgbToCmykInks(r, g, b);
      InksBack(x, r, g, b, hi);
    }
  }

  /** Inks (hi - x) / hi and key 1 - hi / 255 convert back to the whole channels x. */
  lemma InksBack(x: Values, r: real, g: real, b: real, hi: real)
    requires x.Cmyk? && hi != 0.0 && IsInt(r) && IsInt(g) && IsInt(b)
    requires x.c == (hi - r) / hi && x.m == (hi - g) / hi && x.y == (hi - b) / hi
    requires x.k == 1.0 - hi / 255.0
    ensures CmykToRgb(x.c, x.m, x.y, x.k) == Rgb(r, g, b)
  {
    InkBack(r, hi, x.c, x.k);
    InkBack(g, hi, x.m, x.k);
    InkBack(b, hi, x.y, x.k);
  }

  /** 255 (1 - c)(1 - k) rounds back to the whole channel x that gave ink c and key k. */
  lemma InkBack(x: real, hi: real, c: real, k: real)
    requires hi != 0.0 && IsInt(x)
    requires c == (hi - x) / hi && k == 1.0 - hi / 255.0
    ensures InkToChannel(c, k) as real == x
  {
    QuotientTimes(x, hi, x / hi);
    DivExact(hi - x, hi, 1.0 - x / hi);
    var u := 1.0 - c;
    var w := 1.0 - k;
    assert u == x / hi;
    assert w == hi / 255.0;
    assert 255.0 * u * w == x by {
      assert 255.0 * u * w == 255.0 * (x / hi) * (hi / 255.0);
    }
    assert x.Floor as real == x;
    RoundInt(x.Floor);
    assert InkToChannel(c, k) == Round(x);
  }

  /**
   * The hue of RGB to HSL before it is wrapped into [0, 360): 60 times the
   * position of the largest channel's sector plus the signed difference of
   * the other two over the chroma.
   */
  function RawHue(r1: real, g1: real, b1: real): (h: real)
    requires Max3(r1, g1, b1) != Min3(r1, g1, b1)
    ensures -60.0 <= h <= 300.0
  {
    var hi := Max3(r1, g1, b1);
    var lo := Min3(r1, g1, b1);
    var sector :=
      if hi == r1 then (g1 - b1) / (hi - lo)
      else if hi == g1 then 2.0 + (b1 - r1) / (hi - lo)
      else 4.0 + (r1 - g1) / (hi - lo);
    SignedUnit(g1 - b1, hi - lo);
    SignedUnit(b1 - r1, hi - lo);
    SignedUnit(r1 - g1, hi - lo);
    sector * 60.0
  }

  /** -1 <= a / d <= 1 when |a| <= d. */
  lemma SignedUnit(a: real, d: real)
    requires 0.0 < d && -d <= a <= d
    ensures -1.0 <= a / d <= 1.0
  {
  }

  /**
   * RGB to HSL: l = (max + min) / 2; a grey gives hue and saturation 0;
   * otherwise the saturation is the chroma over (max + min) or
   * (2 - max - min) and the hue is the raw hue with 360 added when negative.
   */
  function RgbToHsl(r: real, g: real, b: real): (x: Values)
    requires HslDefined(r, g, b)
    ensures x.Hsl? && 0.0 <= x.h < 360.0
  {
    var r1 := r / 255.0;
    var g1 := g / 255.0;
    var b1 := b / 255.0;
    var hi := Max3(r1, g1, b1);
    var lo := Min3(r1, g1, b1);
    var l := (hi + lo) / 2.0;
    if hi == lo then Hsl(0.0, 0.0, l)
    else
      var s := if l <= 0.5 then (hi - lo) / (hi + lo) else (hi - lo) / (2.0 - hi - lo);
      var h := RawHue(r1, g1, b1);
      Hsl(if h < 0.0 then h + 360.0 else h, s, l)
  }

  /**
   * The lightness is the average of the largest and smallest channel, and
   * the saturation is the chroma over 1 - |max + min - 1|; it is 0 exactly
   * for greys, which also get hue 0.
   */
  lemma RgbToHslChannels(r: real, g: real, b: real)
    requires HslDefined(r, g, b)
    ensures var x := RgbToHsl(r, g, b);
      var hi := Max3(r, g, b) / 255.0;
      var lo := Min3(r, g, b) / 255.0;
      x.l == (hi + lo) / 2.0 &&
      (hi != lo ==> 1.0 - Abs(hi + lo - 1.0) != 0.0 && x.s == (hi - lo) / (1.0 - Abs(hi + lo - 1.0))) &&
      (x.s == 0.0 <==> hi == lo) &&
      (hi == lo ==> x.h == 0.0)
  {
    ScaledExtremes(r, g, b);
    var hi := Max3(r, g, b) / 255.0;
    var lo := Min3(r, g, b) / 255.0;
    if hi != lo {
      if (hi + lo) / 2.0 <= 0.5 {
        assert 1.0 - Abs(hi + lo - 1.0) == hi + lo;
      } else {
        assert 1.0 - Abs(hi + lo - 1.0) == 2.0 - hi - lo;
      }
      NonZeroQuotient(hi - lo, 1.0 - Abs(hi + lo - 1.0));
    }
  }

  /** a / d != 0 when a and d are both non-zero. */
  lemma NonZeroQuotient(a: real, d: real)
    requires a != 0.0 && d != 0.0
    ensures a / d != 0.0
  {
  }

  /** In gamut the saturation and the lightness lie in [0, 1]. */
  lemma RgbToHslBounds(r: real, g: real, b: real)
    requires InGamut(r, g, b)
    ensures HslDefined(r, g, b)
    ensures var x := RgbToHsl(r, g, b);
      0.0 <= x.s <= 1.0 && 0.0 <= x.l <= 1.0
  {
    InGamutDefined(r, g, b);
    RgbToHslChannels(r, g, b);
    ScaledExtremes(r, g, b);
    var hi := Max3(r, g, b) / 255.0;
    var lo := Min3(r, g, b) / 255.0;
    if hi != lo {
      UnitQuotient(hi - lo, 1.0 - Abs(hi + lo - 1.0));
    }
  }

  /**
   * RGB to HSV: the HSL triple converted with the HSL to HSV formula, which
   * keeps the hue.
   */
  function RgbToHsv(r: real, g: real, b: real): (x: Values)
    requires HslDefined(r, g, b)
    ensures x.Hsv? && x.h == RgbToHsl(r, g, b).h
  {
    var hsl := RgbToHsl(r, g, b);
    HslToHsv(hsl.h, hsl.s, hsl.l)
  }

  /**
   * The value is the largest channel over 255, and the saturation the
   * chroma over the largest channel (0 for black).
   */
  lemma RgbToHsvChannels(r: real, g: real, b: real)
    requires HslDefined(r, g, b)
    ensures var x := RgbToHsv(r, g, b);
      var hi := Max3(r, g, b) / 255.0;
      var lo := Min3(r, g, b) / 255.0;
      x.v == hi && x.s == (if hi == 0.0 then 0.0 else (hi - lo) / hi)
  {
    ScaledExtremes(r, g, b);
    RgbToHslChannels(r, g, b);
    var hi := Max3(r, g, b) / 255.0;
    var lo := Min3(r, g, b) / 255.0;
    HsvOfHsl(RgbToHsl(r, g, b), hi, lo);
  }

  /**
   * An HSL triple with lightness (hi + lo) / 2 and the saturation of RGB to
   * HSL converts to value hi and saturation (hi - lo) / hi.
   */
  lemma HsvOfHsl(x: Values, hi: real, lo: real)
    requires x.Hsl? && x.l == (hi + lo) / 2.0
    requires hi != lo ==> 1.0 - Abs(hi + lo - 1.0) != 0.0 && x.s == (hi - lo) / (1.0 - Abs(hi + lo - 1.0))
    requires hi == lo ==> x.s == 0.0
    ensures var y := HslToHsv(x.h, x.s, x.l);
      y.v == hi && y.s == (if hi == 0.0 then 0.0 else (hi - lo) / hi)
  {
    if hi != lo {
      ValueFromHsl(hi, lo, x.s, x.l);
    }
    if hi != 0.0 {
      SaturationFromHsl(hi, lo, x.l);
    }
  }

  /** l + s min(l, 1 - l) == max for the HSL lightness and saturation of a colour. */
  lemma ValueFromHsl(hi: real, lo: real, s: real, l: real)
    requires hi != lo && l == (hi + lo) / 2.0
    requires 1.0 - Abs(hi + lo - 1.0) != 0.0 && s == (hi - lo) / (1.0 - Abs(hi + lo - 1.0))
    ensures l + s * Min(l, 1.0 - l) == hi
  {
    var d := 1.0 - Abs(hi + lo - 1.0);
    assert Min(l, 1.0 - l) == d / 2.0;
    QuotientTimes(hi - lo, d, s);
    assert s * (d / 2.0) == (hi - lo) / 2.0;
  }

  /** 2 - 2l / max == (max - min) / max for l == (max + min) / 2. */
  lemma SaturationFromHsl(hi: real, lo: real, l: real)
    requires hi != 0.0 && l == (hi + lo) / 2.0
    ensures 2.0 - (2.0 * l) / hi == (hi - lo) / hi
  {
    QuotientTimes(lo, hi, lo / hi);
    DivExact(hi + lo, hi, 1.0 + lo / hi);
    DivExact(hi - lo, hi, 1.0 - lo / hi);
  }

  /**
   * RGB to HWB: the HSL hue, whiteness min / 255 and blackness
   * 1 - max / 255; whiteness and blackness never add up to more than 1.
   */
  function RgbToHwb(r: real, g: real, b: real): (x: Values)
    requires HslDefined(r, g, b)
    ensures x.Hwb? && x.h == RgbToHsl(r, g, b).h && x.w + x.k <= 1.0
  {
    var h := RgbToHsl(r, g, b).h;
    var r1 := r / 255.0;
    var g1 := g / 255.0;
    var b1 := b / 255.0;
    Hwb(h, Min3(r1, g1, b1), 1.0 - Max3(r1, g1, b1))
  }

  /**
   * Whiteness is the smallest channel and blackness the shortfall of the
   * largest one, both over 255; in gamut both lie in [0, 1]. The blackness
   * equals the CMYK key.
   */
  lemma RgbToHwbChannels(r: real, g: real, b: real)
    requires HslDefined(r, g, b)
    ensures var x := RgbToHwb(r, g, b);
      x.w == Min3(r, g, b) / 255.0 && x.k == 1.0 - Max3(r, g, b) / 255.0
    ensures RgbToHwb(r, g, b).k == RgbToCmyk(r, g, b).k
    ensures InGamut(r, g, b) ==>
      var x := RgbToHwb(r, g, b); 0.0 <= x.w <= 1.0 && 0.0 <= x.k <= 1.0
  {
    ScaledExtremes(r, g, b);
  }

  /**
   * Going through HWB and then the HWB class's HWB to HSV formula gives the
   * same HSV triple as RGB to HSV, for every colour in gamut.
   */
  lemma HwbHsvAgree(r: real, g: real, b: real)
    requires InGamut(r, g, b)
    ensures HslDefined(r, g, b)
    ensures var x := RgbToHwb(r, g, b);
      HwbToHsv(x.h, x.w, x.k) == RgbToHsv(r, g, b)
  {
    InGamutDefined(r, g, b);
    RgbToHwbChannels(r, g, b);
    RgbToHsvChannels(r, g, b);
    ScaledExtremes(r, g, b);
    var x := RgbToHwb(r, g, b);
    HwbOfExtremes(x.h, Max3(r, g, b) / 255.0, Min3(r, g, b) / 255.0);
  }

  /**
   * Whiteness lo and blackness 1 - hi, with 0 <= lo <= hi <= 1, convert to
   * value hi and saturation (hi - lo) / hi: no rescaling happens.
   */
  lemma HwbOfExtremes(h: real, hi: real, lo: real)
    requires 0.0 <= lo <= hi <= 1.0
    ensures HwbToHsv(h, lo, 1.0 - hi) == Hsv(h, if hi == 0.0 then 0.0 else (hi - lo) / hi, hi)
  {
    if hi != 0.0 {
      assert 1.0 - (1.0 - hi) == hi;
      QuotientTimes(lo, hi, lo / hi);
      DivExact(hi - lo, hi, 1.0 - lo / hi);
    }
  }

  /**
   * The six sectors of HSV to RGB: with f the position inside sector k
   * (0..5), the levels are p = v (1 - s), q = v (1 - f s) (falling) and
   * t = v (1 - (1 - f) s) (rising); the sector picks which channel gets v,
   * q, t or p, and each is then scaled to 0..255.
   */
  function Sextant(k: int, s: real, v: real, f: real): (x: Values)
    requires 0 <= k < 6
    ensures x.Rgb?
  {
    var p := v * (1.0 - s);
    var q := v * (1.0 - f * s);
    var t := v * (1.0 - (1.0 - f) * s);
    var (r, g, b) :=
      if k == 0 then (v, t, p)
      else if k == 1 then (q, v, p)
      else if k == 2 then (p, v, t)
      else if k == 3 then (p, q, v)
      else if k == 4 then (t, p, v)
      else (v, p, q);
    Rgb(r * 255.0, g * 255.0, b * 255.0)
  }

  /** For s, v, f in [0, 1] every channel lies in [0, 255 v] and the largest is 255 v. */
  lemma SextantBounds(k: int, s: real, v: real, f: real)
    requires 0 <= k < 6 && 0.0 <= s <= 1.0 && 0.0 <= v <= 1.0 && 0.0 <= f <= 1.0
    ensures var x := Sextant(k, s, v, f);
      0.0 <= x.r <= 255.0 * v && 0.0 <= x.g <= 255.0 * v && 0.0 <= x.b <= 255.0 * v &&
      Max3(x.r, x.g, x.b) == 255.0 * v
  {
    var p, q, t := v * (1.0 - s), v * (1.0 - f * s), v * (1.0 - (1.0 - f) * s);
    SectorLevels(f, s, v, p, q, t);
    LevelsBelow(k, v, p, q, t);
  }

  /** Placing v and three levels in [0, v] by sector keeps every channel in [0, 255 v]. */
  lemma LevelsBelow(k: int, v: real, p: real, q: real, t: real)
    requires 0 <= k < 6 && 0.0 <= p <= v && 0.0 <= q <= v && 0.0 <= t <= v
    ensures var (r, g, b) :=
        if k == 0 then (v, t, p)
        else if k == 1 then (q, v, p)
        else if k == 2 then (p, v, t)
        else if k == 3 then (p, q, v)
        else if k == 4 then (t, p, v)
        else (v, p, q);
      0.0 <= r * 255.0 <= 255.0 * v && 0.0 <= g * 255.0 <= 255.0 * v && 0.0 <= b * 255.0 <= 255.0 * v &&
      Max3(r * 255.0, g * 255.0, b * 255.0) == 255.0 * v
  {
  }

  /** floor(h / 360 * 6): the sector number of a hue, before the remainder by 6. */
  function Sector(h: real): (i: int)
    ensures i as real <= h / 60.0 < i as real + 1.0
  {
    (h / 360.0 * 6.0).Floor
  }

  /** The position of a hue inside its sector, h / 360 * 6 - Sector(h). */
  function Fraction(h: real): (f: real)
    ensures 0.0 <= f < 1.0 && f == h / 60.0 - Sector(h) as real
  {
    h / 360.0 * 6.0 - Sector(h) as real
  }

  /**
   * HSV to RGB by the sector method: i = floor(h / 60), f its fractional
   * part, p = v (1 - s), q = v (1 - f s), t = v (1 - (1 - f) s), and the
   * JavaScript remainder i % 6 picks the sector; a negative remainder
   * matches no case and the source throws.
   */
  function HsvToRgb(h: real, s: real, v: real): (x: Result<Values, Fault>)
    ensures x.Success? ==> x.value.Rgb?
    ensures x.Failure? ==> x.error == Thrown
  {
    var i := Sector(h);
    var f := Fraction(h);
    var k := RemInt(i, 6);
    if 0 <= k then Success(Sextant(k, s, v, f)) else Failure(Thrown)
  }

  /**
   * HSV to RGB throws exactly when floor(h / 60) is negative and not a
   * multiple of 6.
   */
  lemma HsvToRgbThrows(h: real, s: real, v: real)
    ensures HsvToRgb(h, s, v).Failure? <==>
      (h / 60.0).Floor < 0 && (h / 60.0).Floor % 6 != 0
  {
    var i := (h / 60.0).Floor;
    assert Sector(h) == i;
    if i < 0 {
      assert RemInt(i, 6) == -((-i) % 6);
      SixDivides(i);
    }
  }

  /** For negative i, (-i) % 6 == 0 exactly when i % 6 == 0. */
  lemma SixDivides(i: int)
    requires i < 0
    ensures (-i) % 6 == 0 <==> i % 6 == 0
  {
    var q := (-i) / 6;
    var r := (-i) % 6;
    assert -i == 6 * q + r;
    if r == 0 {
      assert i == 6 * (-q);
    } else {
      assert i == 6 * (-q - 1) + (6 - r);
    }
  }

  /** Every hue in [-300, 0) lies in a negative sector and throws. */
  lemma HsvToRgbNegativeHue(h: real, s: real, v: real)
    requires -300.0 <= h < 0.0
    ensures HsvToRgb(h, s, v).Failure?
  {
    HsvToRgbThrows(h, s, v);
    var i := (h / 60.0).Floor;
    assert -5 <= i <= -1;
  }

  /**
   * For a non-negative hue and s, v in [0, 1] the conversion succeeds, every
   * channel lies in [0, 255 v] and the largest is 255 v.
   */
  lemma HsvToRgbBounds(h: real, s: real, v: real)
    requires 0.0 <= h && 0.0 <= s <= 1.0 && 0.0 <= v <= 1.0
    ensures HsvToRgb(h, s, v).Success?
    ensures var x := HsvToRgb(h, s, v).value;
      0.0 <= x.r <= 255.0 * v && 0.0 <= x.g <= 255.0 * v && 0.0 <= x.b <= 255.0 * v &&
      Max3(x.r, x.g, x.b) == 255.0 * v
  {
    var i := Sector(h);
    assert 0 <= i;
    SextantBounds(RemInt(i, 6), s, v, Fraction(h));
  }

  /** For f, s, v in [0, 1] the levels p, q and t of HSV to RGB lie in [0, v]. */
  lemma SectorLevels(f: real, s: real, v: real, p: real, q: real, t: real)
    requires 0.0 <= f <= 1.0 && 0.0 <= s <= 1.0 && 0.0 <= v <= 1.0
    requires p == v * (1.0 - s) && q == v * (1.0 - f * s) && t == v * (1.0 - (1.0 - f) * s)
    ensures 0.0 <= p <= v && 0.0 <= q <= v && 0.0 <= t <= v
  {
    ProductBelow(s, f, f * s);
    ProductBelow(s, 1.0 - f, (1.0 - f) * s);
    ProductBelow(v, 1.0 - s, p);
    ProductBelow(v, 1.0 - f * s, q);
    ProductBelow(v, 1.0 - (1.0 - f) * s, t);
  }

  /** A saturation of 0 gives the grey 255 v whenever the conversion succeeds. */
  lemma HsvToRgbGrey(h: real, v: real)
    requires HsvToRgb(h, 0.0, v).Success?
    ensures HsvToRgb(h, 0.0, v).value == Rgb(255.0 * v, 255.0 * v, 255.0 * v)
  {
  }
  /**
   * HSV to RGB agrees with going through HSL: for a hue in [0, 360) and s, v
   * in [0, 1], the sector formula gives the same channels as converting to
   * HSL first and then applying the chroma method.
   */
  lemma HsvToRgbViaHsl(h: real, s: real, v: real)
    requires 0.0 <= h < 360.0 && 0.0 <= s <= 1.0 && 0.0 <= v <= 1.0
    ensures var x := HsvToHsl(h, s, v);
      HsvToRgb(h, s, v) == Success(HslToRgb(h, x.s, x.l))
  {
    var x := HsvToHsl(h, s, v);
    var i := Sector(h);
    assert 0 <= i < 6;
    assert RemInt(i, 6) == i;
    var mid := MiddleOfHsv(h, s, v);
    SextantPlaced(h, s, v, mid);
  }

  /**
   * The offset and the middle channel of the chroma method applied to the
   * HSL form of an HSV colour: m = v (1 - s), and x is v s times the
   * fraction (even sector) or one minus it (odd sector).
   */
  lemma MiddleOfHsv(h: real, s: real, v: real) returns (mid: real)
    requires 0.0 <= h < 360.0 && 0.0 <= s <= 1.0 && 0.0 <= v <= 1.0
    ensures var x := HsvToHsl(h, s, v);
      Chroma(x.s, x.l) == v * s && x.l - Chroma(x.s, x.l) / 2.0 == v * (1.0 - s) &&
      Middle(h, x.s, x.l) == mid &&
      mid == v * s * (if Sector(h) % 2 == 0 then Fraction(h) else 1.0 - Fraction(h))
  {
    HsvChroma(h, s, v);
    Rem2Sector(h);
    mid := v * s * (if Sector(h) % 2 == 0 then Fraction(h) else 1.0 - Fraction(h));
  }

  /** Each of the six sectors of HSV to RGB is the matching placement of the chroma method. */
  lemma SextantPlaced(h: real, s: real, v: real, x: real)
    requires 0.0 <= h < 360.0
    requires x == v * s * (if Sector(h) % 2 == 0 then Fraction(h) else 1.0 - Fraction(h))
    ensures Sextant(Sector(h), s, v, Fraction(h)) == Place(h, v * s, x, v * (1.0 - s))
  {
    var f := Fraction(h);
    var m := v * (1.0 - s);
    assert v * s + m == v;
    if Sector(h) % 2 == 0 {
      assert x + m == v * (1.0 - (1.0 - f) * s);
    } else {
      assert x + m == v * (1.0 - f * s);
    }
  }

  /** The HSL form of an HSV colour has chroma v s, the spread of its channels. */
  lemma HsvChroma(h: real, s: real, v: real)
    requires 0.0 <= s <= 1.0 && 0.0 <= v <= 1.0
    ensures var x := HsvToHsl(h, s, v); Chroma(x.s, x.l) == v * s
  {
    var l := v - (v * s) / 2.0;
    assert l == v * (1.0 - s / 2.0);
    ProductBelow(v, 1.0 - s / 2.0, l);
    if l == 0.0 {
      assert v == 0.0;
    } else if l == 1.0 {
      assert v == 1.0 && s == 0.0;
    } else if l <= 0.5 {
      assert Min(l, 1.0 - l) == l;
      assert 1.0 - Abs(2.0 * l - 1.0) == 2.0 * l;
      assert (v - l) / l * (2.0 * l) == 2.0 * (v - l);
    } else {
      assert Min(l, 1.0 - l) == 1.0 - l;
      assert 1.0 - Abs(2.0 * l - 1.0) == 2.0 * (1.0 - l);
      assert (v - l) / (1.0 - l) * (2.0 * (1.0 - l)) == 2.0 * (v - l);
    }
  }

  /** Inside [0, 360), (h / 60) % 2 is the fraction in an even sector and one more in an odd one. */
  lemma Rem2Sector(h: real)
    requires 0.0 <= h < 360.0
    ensures Rem2(h / 60.0) == if Sector(h) % 2 == 0 then Fraction(h) else 1.0 + Fraction(h)
  {
    var i := Sector(h);
    var f := Fraction(h);
    var y := h / 60.0;
    var j := i / 2;
    assert i == 2 * j + i % 2;
    var n := Trunc(y / 2.0);
    assert n as real <= y / 2.0 < n as real + 1.0;
    if i % 2 == 0 {
      assert y / 2.0 == j as real + f / 2.0;
    } else {
      assert y / 2.0 == j as real + (1.0 + f) / 2.0;
    }
    assert n == j;
  }
}
