/**
 * The library's vocabulary: the five colour spaces, the channels its getters
 * expose, the channel tuples its conversion helpers return, and the errors it
 * raises.
 */
module Spaces {

  /** The five colour spaces a colour can be expressed in. */
  datatype Space = CMYK | HSL | HSV | HWB | RGB

  /**
   * The channel getters. `Key` exists only in the older base class, where it
   * reads the same slot as `Blackness`.
   */
  datatype Channel =
    | Cyan | Magenta | Yellow | Key
    | Hue | Saturation | Lightness
    | Brightness
    | Whiteness | Blackness
    | Red | Green | Blue

  /**
   * A tuple of channel values in one space, as returned by the `_cmyk`,
   * `_hsl`, `_hsv`, `_hwb` and `_rgb` helpers. The field names are those of
   * the cache slots each value is stored in: HWB blackness lives in `k`,
   * like CMYK key, and HSL and HSV both keep their saturation in `s`.
   */
  datatype Values =
    | Cmyk(c: real, m: real, y: real, k: real)
    | Hsl(h: real, s: real, l: real)
    | Hsv(h: real, s: real, v: real)
    | Hwb(h: real, w: real, k: real)
    | Rgb(r: real, g: real, b: real)
  {
    /** The space a tuple belongs to. */
    function SpaceOf(): Space {
      match this
      case Cmyk(_, _, _, _) => CMYK
      case Hsl(_, _, _) => HSL
      case Hsv(_, _, _) => HSV
      case Hwb(_, _, _) => HWB
      case Rgb(_, _, _) => RGB
    }

    /** The `array` form of a tuple: its channels in declaration order. */
    function Array(): (a: seq<real>)
      ensures |a| == Arity(SpaceOf())
      ensures Cmyk? ==> a == [c, m, y, k]
      ensures Hsl? ==> a == [h, s, l]
      ensures Hsv? ==> a == [h, s, v]
      ensures Hwb? ==> a == [h, w, k]
      ensures Rgb? ==> a == [r, g, b]
    {
      match this
      case Cmyk(c, m, y, k) => [c, m, y, k]
      case Hsl(h, s, l) => [h, s, l]
      case Hsv(h, s, v) => [h, s, v]
      case Hwb(h, w, k) => [h, w, k]
      case Rgb(r, g, b) => [r, g, b]
    }
  }

  /** Number of channels of a space. */
  function Arity(sp: Space): nat {
    if sp == CMYK then 4 else 3
  }

  /** The space whose helper a getter calls when its slot is still empty. */
  function SpaceOfChannel(ch: Channel): Space {
    match ch
    case Cyan | Magenta | Yellow | Key => CMYK
    case Hue | Saturation | Lightness => HSL
    case Brightness => HSV
    case Whiteness | Blackness => HWB
    case Red | Green | Blue => RGB
  }

  /**
   * The seven colour classes: the newer family (HSL, HSV and HWB over the
   * newer base class) and the older family (RGB, CMYK, HSV and HWB over the
   * older base class).
   */
  datatype Kind = NewHsl | NewHsv | NewHwb | OldRgb | OldCmyk | OldHsv | OldHwb {
    /** The space a class stores its own channels in. */
    function Home(): Space {
      match this
      case NewHsl => HSL
      case NewHsv | OldHsv => HSV
      case NewHwb | OldHwb => HWB
      case OldRgb => RGB
      case OldCmyk => CMYK
    }

    /** Classes over the newer base class, whose getters round what they return. */
    predicate Newer() {
      this == NewHsl || this == NewHsv || this == NewHwb
    }
  }

  /**
   * What can go wrong while computing a channel:
   *  - `Thrown`: the source throws (an HSV hue in a negative sector);
   *  - `NonFinite`: the source divides by zero and carries on with an
   *    infinite or NaN value, which the model does not track;
   *  - `Invalid`: the source throws "Invalid color" for a string;
   *  - `Range`: the source throws a RangeError for an adjustment;
   *  - `Unrendered`: the source prints a number that is not whole (a
   *    fraction in `toString(16)` or in a template literal), which the
   *    model's digit functions do not produce.
   */
  datatype Fault = Thrown | NonFinite | Invalid | Range(channel: Channel) | Unrendered
}
