/**
 * The closed-form conversions the space classes compute from their own
 * slots: HSL to HSV and RGB, HSV to HSL, HWB to HSV and HSL, CMYK to RGB,
 * and the hue normalisation of the HSL and HSV constructors. All of them are
 * exact over the reals except where the source rounds.
 */
module Conversions {
  import opened Numbers
  import opened Spaces

  /**
   * HSL to HSV: v = l + s min(l, 1 - l), and the saturation 2 - 2l / v
   * (0 when v is 0). The hue is carried over.
   */
  function HslToHsv(h: real, s: real, l: real): (x: Values)
    ensures x.Hsv? && x.h == h
    ensures x.v == 0.0 ==> x.s == 0.0
  {
    var v := l + s * Min(l, 1.0 - l);
    var s2 := if v == 0.0 then 0.0 else 2.0 - (2.0 * l) / v;
    Hsv(h, s2, v)
  }

  /** For s, l in [0, 1] both HSV channels lie in [0, 1], and v >= l. */
  lemma HslToHsvBounds(h: real, s: real, l: real)
    requires 0.0 <= s <= 1.0 && 0.0 <= l <= 1.0
    ensures var x := HslToHsv(h, s, l);
      0.0 <= x.s <= 1.0 && l <= x.v <= 1.0
  {
    HslValueBounds(s, l);
    var v := l + s * Min(l, 1.0 - l);
    if v != 0.0 {
      Quotient(2.0 * l, v);
    }
  }

  /** The HSV value l + s min(l, 1 - l) lies between l and min(2l, 1). */
  lemma HslValueBounds(s: real, l: real)
    requires 0.0 <= s <= 1.0 && 0.0 <= l <= 1.0
    ensures l <= l + s * Min(l, 1.0 - l) <= 2.0 * l
    ensures l + s * Min(l, 1.0 - l) <= 1.0
  {
    MulUnit(Min(l, 1.0 - l), s);
    assert s * Min(l, 1.0 - l) <= Min(l, 1.0 - l);
  }

  /**
   * HSV to HSL: l = v - v s / 2, and the saturation (v - l) / min(l, 1 - l)
   * (0 when l is 0 or 1). The hue is carried over.
   */
  function HsvToHsl(h: real, s: real, v: real): (x: Values)
    ensures x.Hsl? && x.h == h
    ensures x.l == 0.0 || x.l == 1.0 ==> x.s == 0.0
  {
    var l := v - (v * s) / 2.0;
    var s2 := if l == 0.0 || l == 1.0 then 0.0 else (v - l) / Min(l, 1.0 - l);
    Hsl(h, s2, l)
  }

  /** For s, v in [0, 1] both HSL channels lie in [0, 1], and l <= v. */
  lemma HsvToHslBounds(h: real, s: real, v: real)
    requires 0.0 <= s <= 1.0 && 0.0 <= v <= 1.0
    ensures var x := HsvToHsl(h, s, v);
      0.0 <= x.s <= 1.0 && 0.0 <= x.l <= v
  {
    MulUnit(v, s);
    var l := v - (v * s) / 2.0;
    assert v / 2.0 <= l <= v;
    if l != 0.0 && l != 1.0 {
      assert 0.0 < Min(l, 1.0 - l);
      UnitQuotient(v - l, Min(l, 1.0 - l));
      assert HsvToHsl(h, s, v).s == (v - l) / Min(l, 1.0 - l);
    }
  }

  /**
   * HSV to HSL undoes HSL to HSV: for a lightness strictly inside (0, 1) and
   * a saturation in [0, 1] the HSL triple comes back unchanged.
   */
  lemma HslHsvRoundTrip(h: real, s: real, l: real)
    requires 0.0 <= s <= 1.0 && 0.0 < l < 1.0
    ensures var x := HslToHsv(h, s, l);
      HsvToHsl(x.h, x.s, x.v) == Hsl(h, s, l)
  {
    var t := Min(l, 1.0 - l);
    var v := l + s * t;
    MulUnit(t, s);
    assert 0.0 < l <= v;
    var s2 := 2.0 - (2.0 * l) / v;
    assert HslToHsv(h, s, l) == Hsv(h, s2, v);
    // the lightness comes back: v - v s2 / 2 == v - (v - l) == l
    assert v * s2 == 2.0 * v - 2.0 * l by { MulDiv(v, 2.0 * l); }
    var l2 := v - (v * s2) / 2.0;
    assert l2 == l;
    // and so does the saturation: (v - l) / t == s t / t == s
    assert v - l == s * t;
    assert (s * t) / t == s;
  }

  /** v (a / v) == a for v != 0. */
  lemma MulDiv(v: real, a: real)
    requires v != 0.0
    ensures v * (2.0 - a / v) == 2.0 * v - a
  {
  }

  /**
   * HSL to HSV undoes HSV to HSL: for a value in (0, 1] and a saturation in
   * [0, 1] the HSV triple comes back unchanged.
   */
  lemma HsvHslRoundTrip(h: real, s: real, v: real)
    requires 0.0 <= s <= 1.0 && 0.0 < v <= 1.0
    ensures var x := HsvToHsl(h, s, v);
      HslToHsv(x.h, x.s, x.l) == Hsv(h, s, v)
  {
    ProductBelow(v, s, v * s);
    var l := v - (v * s) / 2.0;
    assert v / 2.0 <= l <= v;
    if l == 1.0 {
      // only v == 1 and s == 0 reach lightness 1
      assert v == 1.0 && s == 0.0;
      assert HsvToHsl(h, s, v) == Hsl(h, 0.0, 1.0);
      assert HslToHsv(h, 0.0, 1.0) == Hsv(h, 0.0, 1.0);
    } else {
      var t := Min(l, 1.0 - l);
      assert 0.0 < t;
      var s2 := (v - l) / t;
      assert HsvToHsl(h, s, v) == Hsl(h, s2, l);
      QuotientTimes(v - l, t, s2);
      assert l + s2 * Min(l, 1.0 - l) == v;
      LightnessRatio(v, s, v * s);
      assert (2.0 * l) / v == 2.0 - s;
      assert HslToHsv(h, s2, l) == Hsv(h, s, v);
    }
  }

  /** 2 (v - v s / 2) / v == 2 - s, with p standing for v s. */
  lemma LightnessRatio(v: real, s: real, p: real)
    requires v != 0.0 && p == v * s
    ensures (2.0 * (v - p / 2.0)) / v == 2.0 - s
  {
    assert 2.0 * (v - p / 2.0) == v * (2.0 - s);
    DivExact(2.0 * (v - p / 2.0), v, 2.0 - s);
  }

  /**
   * The older HSV class's HSV to HSL: the same formula, with both ratios
   * rounded to two decimals.
   */
  function RoundedHsvToHsl(h: real, s: real, v: real): (x: Values)
    ensures x.Hsl? && x.h == h
    ensures IsInt(100.0 * x.s) && IsInt(100.0 * x.l)
    ensures var e := HsvToHsl(h, s, v);
      x.s - 0.005 <= e.s < x.s + 0.005 && x.l - 0.005 <= e.l < x.l + 0.005
  {
    var l := v - (v * s) / 2.0;
    var s2 := if l == 0.0 || l == 1.0 then 0.0 else (v - l) / Min(l, 1.0 - l);
    Hsl(h, Round2(s2), Round2(l))
  }

  /**
   * HWB to HSV: whiteness and blackness are first scaled by 1 / (w + b) when
   * they add up to more than 1; a scaled blackness of 1 gives black, otherwise
   * v = 1 - b' and s = 1 - w' / (1 - b').
   */
  function HwbToHsv(h: real, w: real, b: real): (x: Values)
    ensures x.Hsv? && x.h == h
  {
    var sum := w + b;
    var ws := if sum > 1.0 then w * (1.0 / sum) else w;
    var bs := if sum > 1.0 then b * (1.0 / sum) else b;
    if bs == 1.0 then Hsv(h, 0.0, 0.0)
    else Hsv(h, 1.0 - ws / (1.0 - bs), 1.0 - bs)
  }

  /** For non-negative whiteness and blackness both HSV ratios lie in [0, 1]. */
  lemma HwbToHsvBounds(h: real, w: real, b: real)
    requires 0.0 <= w && 0.0 <= b
    ensures var x := HwbToHsv(h, w, b);
      0.0 <= x.s <= 1.0 && 0.0 <= x.v <= 1.0
  {
    if w + b >= 1.0 {
      HwbGrey(h, w, b);
      UnitQuotient(w, w + b);
    } else {
      UnitQuotient(w, 1.0 - b);
    }
  }

  /**
   * When whiteness and blackness add up to 1 or more the result is a grey:
   * saturation 0 and value w / (w + b).
   */
  lemma HwbGrey(h: real, w: real, b: real)
    requires 0.0 <= w && 0.0 <= b && w + b >= 1.0
    ensures HwbToHsv(h, w, b) == Hsv(h, 0.0, w / (w + b))
  {
    var sum := w + b;
    if sum > 1.0 {
      ScaledPair(w, b);
      var ws := w * (1.0 / sum);
      var bs := b * (1.0 / sum);
      if bs != 1.0 {
        SelfQuotient(ws);
      }
    } else {
      assert w / (w + b) == w;
    }
  }

  /** Scaling a pair by the reciprocal of its sum gives parts that add up to 1. */
  lemma ScaledPair(w: real, b: real)
    requires 0.0 < w + b
    ensures w * (1.0 / (w + b)) == w / (w + b)
    ensures w * (1.0 / (w + b)) + b * (1.0 / (w + b)) == 1.0
  {
    var sum := w + b;
    assert w / sum + b / sum == sum / sum;
  }

  /** A non-zero number divided by itself is 1. */
  lemma SelfQuotient(x: real)
    requires x != 0.0
    ensures x / x == 1.0
  {
  }

  /**
   * HWB to HSL: the lightness of the HSV result, (2 - s) v / 2, with the HSV
   * saturation carried over unchanged as the HSL saturation.
   */
  function HwbToHsl(h: real, w: real, b: real): (x: Values)
    ensures x.Hsl? && x.h == h
    ensures x.s == HwbToHsv(h, w, b).s
  {
    var hsv := HwbToHsv(h, w, b);
    Hsl(hsv.h, hsv.s, ((2.0 - hsv.s) * hsv.v) / 2.0)
  }

  /** The lightness HWB to HSL reports is the true HSL lightness of its HSV result. */
  lemma HwbToHslLightness(h: real, w: real, b: real)
    ensures var x := HwbToHsv(h, w, b);
      HwbToHsl(h, w, b).l == HsvToHsl(x.h, x.s, x.v).l
  {
  }

  /**
   * The saturation HWB to HSL reports is the HSV saturation, not the HSL one:
   * hwb(0, 50%, 0%) gives saturation 0.5 where converting its HSV triple to
   * HSL gives saturation 1.
   */
  lemma HwbToHslSaturation()
    ensures HwbToHsl(0.0, 0.5, 0.0) == Hsl(0.0, 0.5, 0.75)
    ensures HsvToHsl(0.0, 0.5, 1.0) == Hsl(0.0, 1.0, 0.75)
    ensures HwbToHsv(0.0, 0.5, 0.0) == Hsv(0.0, 0.5, 1.0)
  {
    assert HwbToHsv(0.0, 0.5, 0.0) == Hsv(0.0, 0.5, 1.0);
    assert Min(0.75, 0.25) == 0.25;
  }

  /** The chroma (1 - |2l - 1|) s of an HSL colour: the spread between its largest and smallest channel. */
  function Chroma(s: real, l: real): real {
    (1.0 - Abs(2.0 * l - 1.0)) * s
  }

  /**
   * 1 - |(h / 60) % 2 - 1|: the middle channel of the hue's sector as a
   * fraction of the chroma (0 at a primary or secondary hue, 1 half-way).
   */
  function Ramp(h: real): real {
    1.0 - Abs(Rem2(h / 60.0) - 1.0)
  }

  /**
   * HSL to RGB by the chroma method: c = (1 - |2l - 1|) s,
   * x = c (1 - |(h / 60) % 2 - 1|), m = l - c / 2, and the sector of h picks
   * which of c, x and 0 each channel gets; a hue of 360 or more matches no
   * sector and leaves all three at 0. The channels are scaled to 0..255.
   */
  function HslToRgb(h: real, s: real, l: real): (x: Values)
    ensures x.Rgb?
  {
    var c := Chroma(s, l);
    Place(h, c, Middle(h, s, l), l - c / 2.0)
  }

  /** The middle channel x = c (1 - |(h / 60) % 2 - 1|) of HSL to RGB, before the offset. */
  function Middle(h: real, s: real, l: real): real {
    Chroma(s, l) * Ramp(h)
  }

  /** For a non-negative hue the middle channel lies between 0 and the chroma. */
  lemma MiddleBounds(h: real, s: real, l: real)
    requires 0.0 <= h && 0.0 <= s <= 1.0 && 0.0 <= l <= 1.0
    ensures 0.0 <= Middle(h, s, l) <= Chroma(s, l)
  {
    ChromaRange(s, l);
    RampBounds(h);
    ProductBelow(Chroma(s, l), Ramp(h), Middle(h, s, l));
  }

  /**
   * The sector step of HSL to RGB: the sector of h decides which channel
   * gets the chroma c, which the middle value x and which 0; m is then added
   * to all three and the result scaled to 0..255.
   */
  function Place(h: real, c: real, x: real, m: real): (v: Values)
    ensures v.Rgb?
  {
    var (r, g, b) :=
      if h < 60.0 then (c, x, 0.0)
      else if h < 120.0 then (x, c, 0.0)
      else if h < 180.0 then (0.0, c, x)
      else if h < 240.0 then (0.0, x, c)
      else if h < 300.0 then (x, 0.0, c)
      else if h < 360.0 then (c, 0.0, x)
      else (0.0, 0.0, 0.0);
    Rgb((r + m) * 255.0, (g + m) * 255.0, (b + m) * 255.0)
  }

  /**
   * Inside the six sectors, with 0 <= x <= c and [m, m + c] inside [0, 1],
   * the largest channel is 255 (m + c), the smallest 255 m, and all lie in
   * [0, 255].
   */
  lemma PlaceBounds(h: real, c: real, x: real, m: real)
    requires 0.0 <= h < 360.0 && 0.0 <= x <= c && 0.0 <= m && m + c <= 1.0
    ensures var v := Place(h, c, x, m);
      0.0 <= v.r <= 255.0 && 0.0 <= v.g <= 255.0 && 0.0 <= v.b <= 255.0
    ensures var v := Place(h, c, x, m);
      Max3(v.r, v.g, v.b) == (m + c) * 255.0 && Min3(v.r, v.g, v.b) == m * 255.0
  {
  }

  /** For s, l in [0, 1] the chroma lies in [0, 1 - |2l - 1|]. */
  lemma ChromaRange(s: real, l: real)
    requires 0.0 <= s <= 1.0 && 0.0 <= l <= 1.0
    ensures 0.0 <= Chroma(s, l) <= 1.0 - Abs(2.0 * l - 1.0)
  {
    MulUnit(1.0 - Abs(2.0 * l - 1.0), s);
    assert 0.0 <= (1.0 - Abs(2.0 * l - 1.0)) * s <= 1.0 - Abs(2.0 * l - 1.0);
  }

  /** For s, l in [0, 1], l - c / 2 and l + c / 2 stay inside [0, 1]. */
  lemma ChromaBounds(s: real, l: real)
    requires 0.0 <= s <= 1.0 && 0.0 <= l <= 1.0
    ensures 0.0 <= Chroma(s, l)
    ensures 0.0 <= l - Chroma(s, l) / 2.0 && l + Chroma(s, l) / 2.0 <= 1.0
  {
    ChromaRange(s, l);
    if l <= 0.5 {
      assert Abs(2.0 * l - 1.0) == 1.0 - 2.0 * l;
    } else {
      assert Abs(2.0 * l - 1.0) == 2.0 * l - 1.0;
    }
  }

  /** For a non-negative hue the ramp lies in [0, 1]. */
  lemma RampBounds(h: real)
    requires 0.0 <= h
    ensures 0.0 <= Ramp(h) <= 1.0
  {
  }

  /**
   * For a hue in [0, 360) and s, l in [0, 1] every RGB channel lies in
   * [0, 255], and the largest and smallest channels average to 255 l.
   */
  lemma HslToRgbBounds(h: real, s: real, l: real)
    requires 0.0 <= h < 360.0 && 0.0 <= s <= 1.0 && 0.0 <= l <= 1.0
    ensures var x := HslToRgb(h, s, l);
      0.0 <= x.r <= 255.0 && 0.0 <= x.g <= 255.0 && 0.0 <= x.b <= 255.0
    ensures var x := HslToRgb(h, s, l);
      Max3(x.r, x.g, x.b) + Min3(x.r, x.g, x.b) == 510.0 * l
  {
    ChromaBounds(s, l);
    MiddleBounds(h, s, l);
    PlaceBounds(h, Chroma(s, l), Middle(h, s, l), l - Chroma(s, l) / 2.0);
  }

  /** A saturation of 0 gives the grey 255 l on all three channels. */
  lemma HslToRgbGrey(h: real, l: real)
    requires h < 360.0
    ensures HslToRgb(h, 0.0, l) == Rgb(255.0 * l, 255.0 * l, 255.0 * l)
  {
  }

  /**
   * A hue of 360 or more falls through every sector test: the result is the
   * grey 255 m whatever the saturation.
   */
  lemma HslToRgbPastLastSector(h: real, s: real, l: real)
    requires 360.0 <= h
    ensures var m := l - Chroma(s, l) / 2.0;
      HslToRgb(h, s, l) == Rgb(m * 255.0, m * 255.0, m * 255.0)
  {
  }

  /**
   * CMYK to RGB: each channel is round(255 (1 - x)(1 - k)) for its ink x.
   */
  function CmykToRgb(c: real, m: real, y: real, k: real): (x: Values)
    ensures x.Rgb? && IsInt(x.r) && IsInt(x.g) && IsInt(x.b)
    ensures k == 1.0 ==> x == Rgb(0.0, 0.0, 0.0)
  {
    Rgb(InkToChannel(c, k) as real, InkToChannel(m, k) as real, InkToChannel(y, k) as real)
  }

  /** One RGB channel from its ink x and the key k: round(255 (1 - x)(1 - k)). */
  function InkToChannel(x: real, k: real): (n: int)
    ensures k == 1.0 ==> n == 0
  {
    Round(255.0 * (1.0 - x) * (1.0 - k))
  }

  /** For inks and key in [0, 1] every RGB channel is a whole number in [0, 255]. */
  lemma CmykToRgbBounds(c: real, m: real, y: real, k: real)
    requires 0.0 <= c <= 1.0 && 0.0 <= m <= 1.0 && 0.0 <= y <= 1.0 && 0.0 <= k <= 1.0
    ensures var x := CmykToRgb(c, m, y, k);
      0.0 <= x.r <= 255.0 && 0.0 <= x.g <= 255.0 && 0.0 <= x.b <= 255.0
  {
    InkBounds(c, k);
    InkBounds(m, k);
    InkBounds(y, k);
  }

  /** An ink and key in [0, 1] give a channel in [0, 255]. */
  lemma InkBounds(x: real, k: real)
    requires 0.0 <= x <= 1.0 && 0.0 <= k <= 1.0
    ensures 0 <= InkToChannel(x, k) <= 255
  {
    MulUnit(255.0 * (1.0 - x), 1.0 - k);
    RoundWithin(255.0 * (1.0 - x) * (1.0 - k), 0, 255);
  }

  /**
   * The hue rule of the HSL and newer HSV constructors: h % 360 for h >= 0,
   * (h % 360) + 360 otherwise. The result differs from h by a whole number
   * of turns and lies in [0, 360), except that a negative h gives (0, 360]:
   * exactly 360 for a negative multiple of 360.
   */
  function NormalizeHue(h: real): (r: real)
    ensures IsInt((h - r) / 360.0)
    ensures 0.0 <= h ==> 0.0 <= r < 360.0
    ensures h < 0.0 ==> 0.0 < r <= 360.0
    ensures r == 360.0 <==> h < 0.0 && IsInt(h / 360.0)
  {
    if h >= 0.0 then Rem360(h) else TurnsUp(h); Rem360(h) + 360.0
  }

  /** Adding a turn to a remainder keeps it a whole number of turns from h. */
  lemma TurnsUp(h: real)
    requires h < 0.0
    ensures IsInt((h - (Rem360(h) + 360.0)) / 360.0)
    ensures Rem360(h) + 360.0 == 360.0 <==> IsInt(h / 360.0)
  {
    var r := Rem360(h);
    var q := (h - r) / 360.0;
    assert (h - (r + 360.0)) / 360.0 == q - 1.0;
    assert (q - 1.0).Floor == q.Floor - 1;
    if r == 0.0 {
      assert h / 360.0 == q;
    } else {
      assert h / 360.0 == q + r / 360.0;
      assert -1.0 < r / 360.0 < 0.0;
      assert (h / 360.0).Floor == q.Floor - 1;
    }
  }
}
