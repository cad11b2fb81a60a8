/**
 * The `_parse` method of every colour class, and the text the `string` and
 * `hex` getters print, which is what those parsers read back.
 *
 * The older RGB class reads `#RGB` and `#RRGGBB` with `parseInt(_, 16)` and
 * `rgb(r, g, b)` with its regular expression. Every other class matches one
 * functional-notation pattern: CMYK allows a "%" after each of its four
 * numbers and divides all of them by 100; the HSL class and the older HSV
 * and HWB classes allow a "%" after the second and third numbers; the newer
 * HSV and HWB classes demand it there. In all of them the first number is
 * the hue, kept as read, and the other two are divided by 100.
 */
module Parsers {
  import opened Wrappers
  import opened Numbers
  import opened Spaces
  import opened Text
  import opened Grammar

  /** `s.startsWith(p)`. */
  predicate StartsWith(s: string, p: string) {
    |p| <= |s| && s[..|p|] == p
  }

  /** The name in front of a class's functional notation. */
  function Name(kind: Kind): string {
    match kind.Home()
    case CMYK => "cmyk"
    case HSL => "hsl"
    case HSV => "hsv"
    case HWB => "hwb"
    case RGB => "rgb"
  }

  /** What each field of a class's pattern says about a trailing "%". */
  function Modes(kind: Kind): (modes: seq<Percent>)
    ensures |modes| == Arity(kind.Home())
  {
    match kind
    case OldRgb => [NoSign, NoSign, NoSign]
    case OldCmyk => [MaySign, MaySign, MaySign, MaySign]
    case NewHsv | NewHwb => [NoSign, MustSign, MustSign]
    case NewHsl | OldHsv | OldHwb => [NoSign, MaySign, MaySign]
  }

  /**
   * The channels a class stores from the captured numbers: RGB keeps them
   * as read, CMYK divides each by 100, and the hue spaces keep the hue and
   * divide the other two by 100.
   */
  function FromCaptures(kind: Kind, v: seq<nat>): (x: Values)
    requires |v| == Arity(kind.Home())
    ensures x.SpaceOf() == kind.Home()
  {
    match kind.Home()
    case RGB => Rgb(v[0] as real, v[1] as real, v[2] as real)
    case CMYK => Cmyk(v[0] as real / 100.0, v[1] as real / 100.0, v[2] as real / 100.0, v[3] as real / 100.0)
    case HSL => Hsl(v[0] as real, v[1] as real / 100.0, v[2] as real / 100.0)
    case HSV => Hsv(v[0] as real, v[1] as real / 100.0, v[2] as real / 100.0)
    case HWB => Hwb(v[0] as real, v[1] as real / 100.0, v[2] as real / 100.0)
  }

  /** The functional notation of a class: the pattern's captures, or "Invalid color". */
  function ParseNotation(kind: Kind, text: string): (x: Result<Values, Fault>)
    ensures x.Success? ==> x.value.SpaceOf() == kind.Home()
    ensures x.Failure? ==> x.error == Invalid
  {
    match Match(Name(kind), Modes(kind), text)
    case None => Failure(Invalid)
    case Some(v) => Success(FromCaptures(kind, v))
  }

  /**
   * `parseInt(s, 16)` as a channel. A NaN result is reported as NonFinite,
   * where the source stores NaN in the slot and carries on.
   */
  function HexChannel(s: string): (x: Result<real, Fault>)
    ensures x.Failure? ==> x.error == NonFinite
  {
    match ParseInt16(s)
    case None => Failure(NonFinite)
    case Some(n) => Success(n as real)
  }

  /** The channel read from one character: its value if it is a hex digit. */
  lemma HexChannelChar(ch: char)
    ensures HexChannel([ch]) == if IsHexDigit(ch) then Success(HexDigitValue(ch) as real) else Failure(NonFinite)
  {
    ParseInt16Char(ch);
  }

  /** The channel read from a doubled character: 17 times its value if it is a hex digit. */
  lemma HexChannelPair(ch: char)
    ensures HexChannel([ch, ch]) == if IsHexDigit(ch) then Success(HexDigitValue(ch) as real * 17.0) else Failure(NonFinite)
  {
    ParseInt16Pair(ch);
  }

  /** `#RGB`: each character is one digit, and its value times 17 is the channel. */
  function ParseHexShort(text: string): (x: Result<Values, Fault>)
    requires |text| == 4
    ensures x.Success? ==> x.value.Rgb?
    ensures x.Failure? ==> x.error == NonFinite
  {
    var r :- HexChannel([text[1]]);
    var g :- HexChannel([text[2]]);
    var b :- HexChannel([text[3]]);
    Success(Rgb(r * 17.0, g * 17.0, b * 17.0))
  }

  /** `#RRGGBB`: each pair of characters is one channel. */
  function ParseHexLong(text: string): (x: Result<Values, Fault>)
    requires |text| == 7
    ensures x.Success? ==> x.value.Rgb?
    ensures x.Failure? ==> x.error == NonFinite
  {
    var r :- HexChannel(text[1..3]);
    var g :- HexChannel(text[3..5]);
    var b :- HexChannel(text[5..7]);
    Success(Rgb(r, g, b))
  }

  /** A text starting with "#": 4 or 7 characters long, or "Invalid color". */
  function ParseHex(text: string): (x: Result<Values, Fault>)
    ensures x.Success? ==> x.value.Rgb?
    ensures x.Failure? ==> x.error == Invalid || x.error == NonFinite
    ensures |text| != 4 && |text| != 7 ==> x == Failure(Invalid)
  {
    if |text| == 4 then ParseHexShort(text)
    else if |text| == 7 then ParseHexLong(text)
    else Failure(Invalid)
  }

  /** The older RGB class's `_parse`: hex after "#", the functional notation after "rgb". */
  function ParseRgb(text: string): (x: Result<Values, Fault>)
    ensures x.Success? ==> x.value.Rgb?
    ensures x.Failure? ==> x.error == Invalid || x.error == NonFinite
    ensures !StartsWith(text, "#") && !StartsWith(text, "rgb") ==> x == Failure(Invalid)
  {
    if StartsWith(text, "#") then ParseHex(text)
    else if StartsWith(text, "rgb") then ParseNotation(OldRgb, text)
    else Failure(Invalid)
  }

  /**
   * `_parse` of each class: what the constructor stores when given a
   * string, or the error it throws. Only the older RGB class reads hex.
   */
  function Parse(kind: Kind, text: string): (x: Result<Values, Fault>)
    ensures x.Success? ==> x.value.SpaceOf() == kind.Home()
    ensures x.Failure? ==> x.error == Invalid || (kind == OldRgb && x.error == NonFinite)
  {
    if kind == OldRgb then ParseRgb(text) else ParseNotation(kind, text)
  }

  /**
   * The numbers a `string` getter prints for a tuple of its class's space:
   * RGB channels as they are, CMYK inks and key times 100, and the hue
   * followed by the other two channels times 100.
   */
  function PrintedNumbers(x: Values): (ns: seq<real>)
    ensures |ns| == Arity(x.SpaceOf())
  {
    match x
    case Rgb(r, g, b) => [r, g, b]
    case Cmyk(c, m, y, k) => [c * 100.0, m * 100.0, y * 100.0, k * 100.0]
    case Hsl(h, s, l) => [h, s * 100.0, l * 100.0]
    case Hsv(h, s, v) => [h, s * 100.0, v * 100.0]
    case Hwb(h, w, k) => [h, w * 100.0, k * 100.0]
  }

  /** Which printed numbers the `string` getter follows with "%". */
  function PrintedPercents(sp: Space): (ps: seq<bool>)
    ensures |ps| == Arity(sp)
  {
    match sp
    case RGB => [false, false, false]
    case CMYK => [true, true, true, true]
    case HSL | HSV | HWB => [false, true, true]
  }

  /** The whole numbers of a sequence whose numbers are all whole. */
  function Wholes(ns: seq<real>): (zs: seq<int>)
    requires forall i :: 0 <= i < |ns| ==> IsInt(ns[i])
    ensures |zs| == |ns| && forall i :: 0 <= i < |ns| ==> zs[i] as real == ns[i]
  {
    if |ns| == 0 then []
    else
      var rest := Wholes(ns[1..]);
      var zs := [ns[0].Floor] + rest;
      assert IsInt(ns[0]);
      assert forall i :: 0 < i < |ns| ==> zs[i] == rest[i - 1] && ns[1..][i - 1] == ns[i];
      zs
  }

  /**
   * The `string` getter of a class, given the values its getters return:
   * the name, then the printed numbers separated by ", ", with "%" where
   * the class prints one. Text for a number that is not whole is not
   * produced (`Unrendered`).
   */
  function Show(kind: Kind, x: Values): (t: Result<string, Fault>)
    requires x.SpaceOf() == kind.Home()
    ensures t.Failure? <==> exists i :: 0 <= i < |PrintedNumbers(x)| && !IsInt(PrintedNumbers(x)[i])
  {
    var ns := PrintedNumbers(x);
    if forall i :: 0 <= i < |ns| ==> IsInt(ns[i]) then
      Success(Format(Name(kind), Wholes(ns), PrintedPercents(kind.Home())))
    else Failure(Unrendered)
  }

  /** The `hex` getter's text for whole channels: "#" and each channel's `toString(16)` padded to two digits. */
  function HexText(r: int, g: int, b: int): (t: string)
    ensures 0 <= r <= 255 && 0 <= g <= 255 && 0 <= b <= 255 ==> |t| == 7
  {
    ByteHexLength(r);
    ByteHexLength(g);
    ByteHexLength(b);
    "#" + PadStart2(IntToHex(r)) + PadStart2(IntToHex(g)) + PadStart2(IntToHex(b))
  }

  lemma ByteHexLength(n: int)
    ensures 0 <= n <= 255 ==> |PadStart2(IntToHex(n))| == 2
  {
    if 0 <= n <= 255 {
      ByteHex(n);
    }
  }

  /**
   * `#RGB` succeeds exactly when its three characters are hex digits; each
   * channel is then 17 times its digit, a multiple of 17 in [0, 255].
   */
  lemma HexShortChannels(text: string)
    requires |text| == 4
    ensures ParseHexShort(text).Success? <==> IsHexDigit(text[1]) && IsHexDigit(text[2]) && IsHexDigit(text[3])
    ensures ParseHexShort(text).Success? ==> ParseHexShort(text).value == Rgb(
      HexDigitValue(text[1]) as real * 17.0,
      HexDigitValue(text[2]) as real * 17.0,
      HexDigitValue(text[3]) as real * 17.0)
    ensures ParseHexShort(text).Success? ==>
      var v := ParseHexShort(text).value;
      0.0 <= v.r <= 255.0 && 0.0 <= v.g <= 255.0 && 0.0 <= v.b <= 255.0
  {
    HexChannelChar(text[1]);
    HexChannelChar(text[2]);
    HexChannelChar(text[3]);
  }

  /** `#RGB` with every digit written twice: `#abc` becomes `#aabbcc`. */
  function Doubled(text: string): (t: string)
    requires |text| == 4
    ensures |t| == 7 && t[0] == text[0]
    ensures t[1..3] == [text[1], text[1]] && t[3..5] == [text[2], text[2]] && t[5..7] == [text[3], text[3]]
  {
    [text[0], text[1], text[1], text[2], text[2], text[3], text[3]]
  }

  /**
   * A four-character hex text parses as the seven-character text with each
   * digit doubled, whatever its characters: both fail together, and
   * otherwise give the same channels.
   */
  lemma HexShortDoubles(text: string)
    requires |text| == 4
    ensures ParseHexShort(text) == ParseHexLong(Doubled(text))
  {
    var long := Doubled(text);
    HexShortChannels(text);
    HexLongChannels(long);
    DoubledChannel(long[1..3], text[1]);
    DoubledChannel(long[3..5], text[2]);
    DoubledChannel(long[5..7], text[3]);
  }

  /** A pair of equal characters is read as 17 times the value of the character. */
  lemma DoubledChannel(pair: string, ch: char)
    requires pair == [ch, ch]
    ensures HexChannel(pair).Success? <==> IsHexDigit(ch)
    ensures HexChannel(pair).Success? ==> HexChannel(pair).value == HexDigitValue(ch) as real * 17.0
  {
    HexChannelPair(ch);
  }

  /** `#RRGGBB` succeeds exactly when its three pairs are read as numbers, and the channels are those numbers. */
  lemma HexLongChannels(text: string)
    requires |text| == 7
    ensures ParseHexLong(text).Success? <==>
      HexChannel(text[1..3]).Success? && HexChannel(text[3..5]).Success? && HexChannel(text[5..7]).Success?
    ensures ParseHexLong(text).Success? ==> ParseHexLong(text).value.r == HexChannel(text[1..3]).value
    ensures ParseHexLong(text).Success? ==> ParseHexLong(text).value.g == HexChannel(text[3..5]).value
    ensures ParseHexLong(text).Success? ==> ParseHexLong(text).value.b == HexChannel(text[5..7]).value
  {
  }

  /** The two hex digits printed for a byte are read back as that byte. */
  lemma HexChannelByte(n: int)
    requires 0 <= n <= 255
    ensures HexChannel(PadStart2(IntToHex(n))) == Success(n as real)
  {
    ByteHex(n);
    ParseInt16Digits(PadStart2(IntToHex(n)));
  }

  /** The `hex` getter's text for channels in [0, 255] parses back to the same channels. */
  lemma HexRoundTrip(r: int, g: int, b: int)
    requires 0 <= r <= 255 && 0 <= g <= 255 && 0 <= b <= 255
    ensures Parse(OldRgb, HexText(r, g, b)) == Success(Rgb(r as real, g as real, b as real))
  {
    var t := HexText(r, g, b);
    var pr, pg, pb := PadStart2(IntToHex(r)), PadStart2(IntToHex(g)), PadStart2(IntToHex(b));
    ByteHexLength(r);
    ByteHexLength(g);
    ByteHexLength(b);
    assert t[..1] == "#";
    assert t[1..3] == pr;
    assert t[3..5] == pg;
    assert t[5..7] == pb;
    HexChannelByte(r);
    HexChannelByte(g);
    HexChannelByte(b);
    HexLongChannels(t);
  }

  /** The signs a `string` getter prints are ones its class's pattern accepts. */
  lemma PrintedAllowed(kind: Kind)
    ensures forall i :: 0 <= i < Arity(kind.Home()) ==> Allowed(Modes(kind)[i], PrintedPercents(kind.Home())[i])
  {
  }

  /** A tuple whose printed numbers are whole and not negative, so that the pattern's `\d+` reads them. */
  predicate Printable(x: Values) {
    forall i :: 0 <= i < |PrintedNumbers(x)| ==> IsInt(PrintedNumbers(x)[i]) && 0.0 <= PrintedNumbers(x)[i]
  }

  /** Storing the printed numbers the way the parser does gives back the tuple. */
  lemma CapturesOfPrinted(kind: Kind, x: Values, v: seq<nat>)
    requires x.SpaceOf() == kind.Home() && |v| == Arity(kind.Home())
    requires forall i :: 0 <= i < |v| ==> v[i] as real == PrintedNumbers(x)[i]
    ensures FromCaptures(kind, v) == x
  {
    assert v[0] as real == PrintedNumbers(x)[0];
    assert v[1] as real == PrintedNumbers(x)[1];
    assert v[2] as real == PrintedNumbers(x)[2];
    if x.Cmyk? {
      assert v[3] as real == PrintedNumbers(x)[3];
    }
  }

  /** A text made by `Format` starts with the name. */
  lemma FormatStartsWith(name: string, nums: seq<int>, percents: seq<bool>)
    requires 0 < |nums| && |percents| == |nums|
    ensures StartsWith(Format(name, nums, percents), name)
  {
    var rest := "(" + FormatList(nums, percents, true);
    assert Format(name, nums, percents) == name + rest;
    assert (name + rest)[..|name|] == name;
  }

  /**
   * The text the `string` getter prints for a printable tuple of the
   * class's space starts with the class's name and matches its pattern,
   * and storing the captures gives the tuple back.
   */
  lemma ShowNotation(kind: Kind, x: Values)
    requires x.SpaceOf() == kind.Home() && Printable(x)
    ensures Show(kind, x).Success?
    ensures StartsWith(Show(kind, x).value, Name(kind))
    ensures ParseNotation(kind, Show(kind, x).value) == Success(x)
  {
    var ns := PrintedNumbers(x);
    var zs := Wholes(ns);
    assert forall i :: 0 <= i < |zs| ==> zs[i] >= 0 by {
      forall i | 0 <= i < |zs|
        ensures zs[i] >= 0
      {
        assert zs[i] as real == ns[i] && 0.0 <= ns[i];
      }
    }
    var nums: seq<nat> := zs;
    var percents := PrintedPercents(kind.Home());
    var text := Format(Name(kind), nums, percents);
    assert Show(kind, x) == Success(text);
    FormatStartsWith(Name(kind), nums, percents);
    PrintedAllowed(kind);
    MatchFormat(Name(kind), Modes(kind), nums, percents);
    CapturesOfPrinted(kind, x, nums);
  }

  /**
   * The `string` getter is the inverse of `_parse`: for a tuple of the
   * class's own space whose printed numbers are whole and not negative,
   * the getter produces a text, and parsing that text gives the tuple back.
   * No range is checked on the way: `rgb(300, 0, 0)` reads back as 300.
   */
  lemma ShowParse(kind: Kind, x: Values)
    requires x.SpaceOf() == kind.Home() && Printable(x)
    ensures Show(kind, x).Success?
    ensures Parse(kind, Show(kind, x).value) == Success(x)
  {
    ShowNotation(kind, x);
    var text := Show(kind, x).value;
    if kind == OldRgb {
      assert text[0] == 'r';
      NotationDispatch(text);
    }
  }

  /** A text of the RGB class that starts with "rgb" is read by its functional notation. */
  lemma NotationDispatch(text: string)
    requires StartsWith(text, "rgb") && text[0] != '#'
    ensures Parse(OldRgb, text) == ParseNotation(OldRgb, text)
  {
    assert text[..1] != "#";
  }

  lemma LaxTextLast()
    ensures FormatList([50], [false], false) == " 50)"
  {
  }

  lemma LaxTextRest()
    ensures FormatList([100, 50], [true, false], false) == " 100%, 50)"
  {
    LaxTextLast();
    assert [100, 50][1..] == [50];
    assert [true, false][1..] == [false];
  }

  /** "hsl(0, 100%, 50)" is a text the getters' formatting can produce. */
  lemma LaxText()
    ensures Format("hsl", [0, 100, 50], [false, true, false]) == "hsl(0, 100%, 50)"
  {
    LaxTextRest();
    assert [0, 100, 50][1..] == [100, 50];
    assert [false, true, false][1..] == [true, false];
  }

  /**
   * The HSL class accepts a lightness without "%": `hsl(0, 100%, 50)` is
   * hue 0, saturation 1 and lightness 0.5.
   */
  lemma LaxHsl()
    ensures Parse(NewHsl, "hsl(0, 100%, 50)") == Success(Hsl(0.0, 1.0, 0.5))
  {
    LaxText();
    MatchFormat("hsl", Modes(NewHsl), [0, 100, 50], [false, true, false]);
  }

  /** The newer HSV class demands the sign and throws on the same numbers. */
  lemma StrictHsv()
    ensures Parse(NewHsv, "hsv(0, 100%, 50)") == Failure(Invalid)
  {
    StrictLastSign("hsv", Modes(NewHsv), "hsv(0, 100%, 50)");
  }

  /** `#fff` is white; a text that starts with neither "#" nor "rgb" is not a colour. */
  lemma ParseExamples()
    ensures Parse(OldRgb, "#fff") == Success(Rgb(255.0, 255.0, 255.0))
    ensures Parse(OldRgb, "#ff") == Failure(Invalid)
    ensures Parse(OldRgb, "red") == Failure(Invalid)
  {
    HexShortChannels("#fff");
  }
}
