# A verified model of a colour-value library

The library represents a colour in one of five spaces: CMYK, HSL, HSV, HWB
and RGB. It converts between them, parses and prints their textual
notations, and transforms colours (adjust, change, scale, complement,
grayscale, invert, mix). Two generations of the code live side by side:

- the **newer** base class (`src/lib/color.ts`) with the HSV and HWB
  classes `src/lib/hsv.ts`, `src/lib/hwb.ts`, and the HSL class `src/hsl.ts`,
  which the model places in this family (its imports are mixed; see
  "Left out"): its static
  conversion helpers keep full precision, its getters round what they
  return, and it carries the transforms;
- the **older** base class (`src/color.ts`) with the RGB, CMYK, HSV and HWB
  classes `src/rgb.ts`, `src/cmyk.ts`, `src/hsv.ts`, `src/hwb.ts`: its
  helpers round inside every formula and its getters return raw slots.

Every colour object keeps thirteen nullable slots
`_c _m _y _k _h _s _l _v _w _r _g _b _hex`. A getter whose slot is empty asks
the class's helper (`_cmyk`, `_hsl`, `_hsv`, `_hwb`, `_rgb`) for the whole
tuple of its space and writes all of it; slots are never emptied again, and
`_h`, `_s` and `_k` are shared between spaces.

The model, one module per file:

| module | file | what it holds |
|---|---|---|
| `Wrappers` | wrappers.dfy | `Option` (a nullable slot) and `Result` (a value or the error thrown) |
| `Numbers` | numbers.dfy | `Math.round`, the two-decimal rounding of the getters, JavaScript's truncating `%`, `Math.min/max/abs` |
| `Spaces` | spaces.dfy | spaces, channels, channel tuples, the seven classes (`Kind`), errors (`Fault`) |
| `Conversions` | conversions.dfy | the formulas the space classes compute themselves: HSL↔HSV, HWB→HSV/HSL, HSL→RGB, CMYK→RGB, hue normalisation |
| `Kernel` | kernel.dfy | the newer base class's exact static helpers |
| `LegacyKernel` | legacy_kernel.dfy | the older base class's rounding static helpers |
| `Text` | text.dfy | digits, `parseInt(_, 16)`, `toString(16)`, `padStart`, decimal printing |
| `Grammar` | grammar.dfy | the functional notation `name(d, d%, d%)` shared by all patterns and `string` getters |
| `Parsers` | parsers.dfy | each class's `_parse`, the `string` text, hex parsing and printing |
| `Cache` | cache.dfy | the slot state machine: getters, `array`, `string`, `hex`, constructors, the conversions `cmyk()`…`rgb()` |
| `Transforms` | transforms.dfy | `adjust`, `change`, `scale`, `complement`, `grayscale`, `invert`, `mix` |
| `Colors` | color.dfy | the colour object as a class with the thirteen slots as fields; each method is proved to perform the step function of `Cache` or `Transforms` |

Polymorphism is replaced by dispatch on `Kind`. The getters are stated over
an abstract `Helper` (any function that answers in the space asked for), so
every cache property holds for every class; `Cache.Helpers(kind)` is the
concrete helper set of a class and is what `Colors.Color` uses.

## Model

| member | source | states |
|---|---|---|
| Numbers.Round | src/lib/color.ts:174 | `Math.round`: the integer n with n - 1/2 <= x < n + 1/2 |
| Numbers.Round2 | src/lib/color.ts:161 | `Math.round(x * 100) / 100`: a number with two decimals within 1/200 of x |
| Numbers.Rem360 | src/hsl.ts:26 | `x % 360`: the truncated remainder, with the sign of x, a whole number of turns from x |
| Numbers.Rem2 | src/hsl.ts:127 | `x % 2` with the sign of x kept, strictly inside (-2, 2), and a whole multiple of 2 away from x |
| Numbers.RemInt | src/lib/color.ts:427 | `i % m` on integers for m > 0: a remainder in (-m, m) with the sign of i, and i - r a multiple of m |
| Numbers.Max3 | src/lib/color.ts:492 | `Math.max` of three: one of them and no smaller than any |
| Numbers.Min3 | src/lib/color.ts:493 | `Math.min` of three: one of them and no larger than any |
| Numbers.RoundMonotone | src/lib/color.ts:174 | `Math.round` is monotone |
| Numbers.RoundWithin | src/cmyk.ts:88 | rounding a value inside whole bounds stays inside |
| Numbers.Round2Unit | src/lib/color.ts:161 | a ratio in [0, 1] stays in [0, 1] after two-decimal rounding |
| Numbers.Round2Hundredths | src/lib/color.ts:161 | a value with two decimals is unchanged by two-decimal rounding |
| Conversions.HslToHsv | src/hsl.ts:92-101 | HSL→HSV keeps the hue and gives saturation 0 when the value is 0 |
| Conversions.HslToHsvBounds | src/hsl.ts:97-98 | for s, l in [0, 1] the HSV saturation and value lie in [0, 1] and v >= l |
| Conversions.HsvToHsl | src/lib/hsv.ts:87-96 | HSV→HSL keeps the hue and gives saturation 0 when l is 0 or 1 |
| Conversions.HsvToHslBounds | src/lib/hsv.ts:92-93 | for s, v in [0, 1] both HSL ratios lie in [0, 1] and l <= v |
| Conversions.HslHsvRoundTrip | src/hsl.ts:92-101 | HSV→HSL undoes HSL→HSV for l in (0, 1), s in [0, 1] |
| Conversions.HsvHslRoundTrip | src/lib/hsv.ts:87-96 | HSL→HSV undoes HSV→HSL for v in (0, 1], s in [0, 1] |
| Conversions.RoundedHsvToHsl | src/hsv.ts:67-76 | the older HSV→HSL: two-decimal ratios, each within 1/200 of the exact formula |
| Conversions.HwbToHsv | src/lib/hwb.ts:86-110 | HWB→HSV keeps the hue |
| Conversions.HwbToHsvBounds | src/hwb.ts:74-98 | for w, b >= 0 both HSV ratios lie in [0, 1] |
| Conversions.HwbGrey | src/lib/hwb.ts:96-103 | w + b >= 1 gives the grey with saturation 0 and value w / (w + b) |
| Conversions.HwbToHsl | src/lib/hwb.ts:80-84 | HWB→HSL keeps the hue and passes the HSV saturation through |
| Conversions.HwbToHslLightness | src/lib/hwb.ts:82 | the lightness is the true HSL lightness of the HSV triple |
| Conversions.HwbToHslSaturation | src/hwb.ts:68-72 | the saturation is not the HSL one: hwb(0, 50%, 0%) reports 0.5 where HSL saturation is 1 |
| Conversions.HslToRgb | src/hsl.ts:121-161 | HSL→RGB by the chroma method gives an RGB tuple |
| Conversions.Place | src/hsl.ts:134-160 | the sector case split of the chroma method |
| Conversions.PlaceBounds | src/hsl.ts:134-160 | inside the six sectors the largest channel is 255(m + c), the smallest 255m, all in [0, 255] |
| Conversions.MiddleBounds | src/hsl.ts:127 | for h >= 0 the middle channel x lies in [0, c] |
| Conversions.ChromaRange | src/hsl.ts:126 | the chroma lies in [0, 1 - abs(2l - 1)] |
| Conversions.ChromaBounds | src/hsl.ts:126-128 | l - c/2 and l + c/2 stay inside [0, 1] |
| Conversions.RampBounds | src/hsl.ts:127 | 1 - abs((h/60) % 2 - 1) lies in [0, 1] for h >= 0 |
| Conversions.HslToRgbBounds | src/hsl.ts:121-161 | for h in [0, 360), s, l in [0, 1]: channels in [0, 255], max and min averaging to 255l |
| Conversions.HslToRgbGrey | src/hsl.ts:121-161 | saturation 0 gives three channels 255l |
| Conversions.HslToRgbPastLastSector | src/hsl.ts:134-158 | h >= 360 matches no sector: three channels 255m |
| Conversions.CmykToRgb | src/cmyk.ts:78-89 | CMYK→RGB gives whole channels; key 1 gives black |
| Conversions.InkToChannel | src/cmyk.ts:84-88 | one channel from its ink and the key: key 1 gives 0 whatever the ink |
| Conversions.CmykToRgbBounds | src/cmyk.ts:78-89 | inks and key in [0, 1] give whole channels in [0, 255] |
| Conversions.InkBounds | src/cmyk.ts:84-88 | one channel lies in [0, 255] |
| Conversions.NormalizeHue | src/hsl.ts:26 | the hue rule: a whole number of turns from h, in [0, 360) for h >= 0, in (0, 360] for h < 0, 360 exactly for negative multiples of 360 |
| Conversions.TurnsUp | src/lib/hsv.ts:26 | adding 360 to a negative remainder keeps a whole number of turns, and gives 360 only for multiples of 360 |
| Kernel.InGamutDefined | src/lib/color.ts:501 | in gamut the RGB→HSL divisions are by non-zero numbers |
| Kernel.RgbToCmyk | src/lib/color.ts:468-484 | RGB→CMYK gives a CMYK tuple |
| Kernel.RgbToCmykBlack | src/lib/color.ts:475-477 | (0, 0, 0, 1) exactly when the largest channel is 0 |
| Kernel.RgbToCmykInks | src/lib/color.ts:479-483 | not black, in gamut: inks (max - x)/max in [0, 1], 0 for the largest channel, key 1 - max/255 |
| Kernel.CmykRgbRoundTrip | src/cmyk.ts:78-89 | the CMYK class's formula recovers every whole in-gamut RGB colour from RGB→CMYK |
| Kernel.RawHue | src/lib/color.ts:503-510 | the sector hue before wrapping lies in [-60, 300] |
| Kernel.RgbToHsl | src/lib/color.ts:487-518 | RGB→HSL gives a hue in [0, 360) |
| Kernel.RgbToHslChannels | src/lib/color.ts:492-501 | l = (max + min)/2; s = chroma / (1 - abs(max + min - 1)); s = 0 exactly for greys, which get hue 0 |
| Kernel.RgbToHslBounds | src/lib/color.ts:487-518 | in gamut s and l lie in [0, 1] |
| Kernel.RgbToHsv | src/lib/color.ts:521-527 | RGB→HSV reuses the HSL hue |
| Kernel.RgbToHsvChannels | src/lib/color.ts:521-527 | value = max/255 and saturation = (max - min)/max (0 for black) |
| Kernel.HsvOfHsl | src/lib/color.ts:523-524 | the HSL→HSV step applied to the HSL of a colour gives value max and saturation (max - min)/max |
| Kernel.RgbToHwb | src/lib/color.ts:530-541 | RGB→HWB reuses the HSL hue and w + b <= 1 |
| Kernel.RgbToHwbChannels | src/lib/color.ts:537-540 | whiteness min/255, blackness 1 - max/255, both in [0, 1] in gamut; blackness equals the CMYK key |
| Kernel.HwbHsvAgree | src/lib/hwb.ts:86-110 | RGB→HWB then the HWB class's HWB→HSV equals RGB→HSV in gamut |
| Kernel.HwbOfExtremes | src/lib/hwb.ts:86-110 | whiteness lo and blackness 1 - hi need no rescaling and give value hi |
| Kernel.Sextant | src/lib/color.ts:427-464 | the six p/q/t cases give an RGB tuple |
| Kernel.SextantBounds | src/lib/color.ts:427-464 | for s, v, f in [0, 1] channels lie in [0, 255v] and the largest is 255v |
| Kernel.Sector | src/lib/color.ts:420 | floor(h/360 * 6) is the i with i <= h/60 < i + 1 |
| Kernel.Fraction | src/lib/color.ts:421 | f = h/60 - i lies in [0, 1) |
| Kernel.HsvToRgb | src/lib/color.ts:417-465 | HSV→RGB gives an RGB tuple or throws |
| Kernel.HsvToRgbThrows | src/lib/color.ts:458-461 | it throws exactly when floor(h/60) is negative and not a multiple of 6 |
| Kernel.HsvToRgbNegativeHue | src/lib/color.ts:427-461 | every hue in [-300, 0) throws |
| Kernel.HsvToRgbBounds | src/lib/color.ts:417-465 | for h >= 0, s, v in [0, 1] it succeeds, channels in [0, 255v], the largest 255v |
| Kernel.SectorLevels | src/lib/color.ts:422-424 | p, q, t lie in [0, v] |
| Kernel.HsvToRgbGrey | src/lib/color.ts:417-465 | saturation 0 gives three equal channels 255v |
| Kernel.HsvToRgbViaHsl | src/lib/color.ts:417-465 | for h in [0, 360) and s, v in [0, 1], HSV→RGB equals HSV→HSL followed by the chroma method of HSL→RGB |
| LegacyKernel.LegacyHsvToRgb | src/color.ts:202-255 | the older HSV→RGB throws exactly when the exact one does, else whole channels |
| LegacyKernel.LegacyHsvToRgbBounds | src/color.ts:254 | for h >= 0, s, v in [0, 1] whole channels in [0, 255], each within 1/2 of the exact one |
| LegacyKernel.LegacyRgbToCmyk | src/color.ts:257-282 | the older RGB→CMYK gives four two-decimal values |
| LegacyKernel.LegacyRgbToCmykClose | src/color.ts:276-281 | each within 1/200 of the exact value, in [0, 1] in gamut; black gives (0, 0, 0, 1) exactly |
| LegacyKernel.LegacyCmykLosesDarkRed | src/color.ts:268-281 | rgb(1, 0, 0) gets key 1 and converts back to black |
| LegacyKernel.LegacyHue | src/color.ts:305-317 | the older hue is a whole number in [0, 360) |
| LegacyKernel.LegacyRgbToHsl | src/color.ts:284-320 | whole hue in [0, 360), two-decimal saturation and lightness |
| LegacyKernel.LegacyRgbToHslRounds | src/color.ts:298-319 | the older triple is the exact one rounded (a hue rounding to 360 becomes 0) |
| LegacyKernel.LegacyHueNearRed | src/color.ts:314-317 | rgb(255, 0, 1): the exact hue rounds to 360, the older hue is 0 |
| LegacyKernel.LegacyRgbToHsv | src/color.ts:322-332 | the older RGB→HSV keeps the older hue and gives two-decimal ratios |
| LegacyKernel.LegacyRgbToHsvBounds | src/color.ts:327-331 | in gamut the older saturation and value lie in [0, 1], value >= lightness |
| LegacyKernel.LegacyRgbToHwb | src/color.ts:334-349 | the older RGB→HWB keeps the older hue and gives two-decimal ratios |
| LegacyKernel.LegacyRgbToHwbClose | src/color.ts:345-348 | whiteness and blackness within 1/200 of min/255 and 1 - max/255, in [0, 1] in gamut |
| LegacyKernel.LegacyKeyIsBlackness | src/color.ts:334-349 | the older CMYK key equals the older HWB blackness |
| Text.HexDigitValue | src/rgb.ts:92-94 | a hex digit's value is below 16, below 10 exactly for decimal digits |
| Text.DigitChar | src/lib/color.ts:256 | `toString(16)` digits are lower-case and have the value printed |
| Text.NatToNumeral | src/lib/color.ts:256-258 | the numeral of n: at least one digit, no leading zero |
| Text.NumeralRoundTrip | src/rgb.ts:103-105 | reading back the numeral printed for n gives n |
| Text.LeadingZero | src/rgb.ts:103-105 | leading zeros do not change a numeral's value |
| Text.PairValue | src/rgb.ts:103-105 | a two-digit hex numeral is 16 times its first digit plus its second |
| Text.IntToDecimal | src/rgb.ts:57-59 | a whole number printed in base 10 is non-empty |
| Text.IntToHex | src/lib/color.ts:256 | `n.toString(16)` is non-empty hex digits for n >= 0 |
| Text.PadStart2 | src/lib/color.ts:256-258 | `padStart(2, "0")`: a text of two or more characters is kept, a shorter one gets one "0" in front |
| Text.ByteHex | src/lib/color.ts:256-258 | for 0 <= n <= 255 the padded text is two lower-case hex digits of value n |
| Text.HexPrefix | src/rgb.ts:103 | the longest prefix of hex digits |
| Text.TrimStart | src/rgb.ts:92 | leading white space removed |
| Text.TrimStartDrops | src/rgb.ts:92 | `trimStart` removes exactly a prefix of white space and keeps the rest of the string |
| Text.ParseInt16Digits | src/rgb.ts:103-105 | `parseInt(s, 16)` of non-empty hex digits is their numeral value |
| Text.ParseInt16Char | src/rgb.ts:92-94 | `parseInt(c, 16)` is the digit's value or NaN |
| Text.ParseInt16Pair | src/rgb.ts:92-98 | `parseInt(cc, 16)` is 17 times the digit's value or NaN |
| Text.ParseInt16Prefix | src/rgb.ts:103 | "1g" reads as 1: the trailing garbage is ignored |
| Text.ParseInt16Negative | src/rgb.ts:103 | "-f" reads as -15 |
| Text.ParseInt16BarePrefix | src/rgb.ts:103 | "0x" alone reads as NaN |
| Grammar.DigitPrefix | src/hsl.ts:109 | `\d+`'s longest digit run |
| Grammar.SpacePrefix | src/hsl.ts:109 | `\s*`'s longest white-space run |
| Grammar.ScanList | src/hsl.ts:109 | a match reads one field per mode |
| Grammar.Values | src/hsl.ts:112-114 | each capture read as `parseInt(_, 10)` |
| Grammar.ScanFieldSound | src/hsl.ts:109 | a field read is a well-formed field, and the text is its rendering followed by the rest |
| Grammar.ScanListFits | src/hsl.ts:109 | every field accepted fits its mode; the first has no white space |
| Grammar.ScanListText | src/hsl.ts:109 | whatever the scanner accepts renders back to the text it read |
| Grammar.ScanSound | src/hsl.ts:109 | an accepted text is the rendering of well-formed fields |
| Grammar.ScanFieldComplete | src/hsl.ts:109 | a well-formed field is read back from its text |
| Grammar.ScanListComplete | src/hsl.ts:109 | every list of well-formed fields is read back from its rendering |
| Grammar.ScanComplete | src/hsl.ts:109 | with ScanSound: the pattern accepts exactly the renderings of well-formed fields |
| Grammar.Match | src/hsl.ts:109-118 | the captures, present exactly when the text matches, one per field |
| Grammar.Printed | src/hsl.ts:77-81 | the fields a `string` getter's text consists of, one per number |
| Grammar.FormatListRenders | src/hsl.ts:77-81 | the printed text is the rendering of the printed fields |
| Grammar.FormatRoundTrip | src/hsl.ts:77-81 | matching a printed text gives the printed fields, whose values are the numbers |
| Grammar.MatchFormat | src/cmyk.ts:53-57 | the captures of a printed text are the numbers printed |
| Grammar.StrictLastSign | src/lib/hsv.ts:108 | a pattern demanding "%" last accepts only texts ending in "%)" |
| Parsers.Modes | src/cmyk.ts:92-94 | one percent mode per channel of the class's space |
| Parsers.FromCaptures | src/cmyk.ts:97-100 | the captures stored as a tuple of the class's space |
| Parsers.ParseNotation | src/hwb.ts:109-120 | the functional notation: a tuple of the class's space or "Invalid color" |
| Parsers.HexChannel | src/rgb.ts:103-105 | `parseInt(_, 16)` as a channel; NaN reported |
| Parsers.HexChannelChar | src/rgb.ts:92-94 | one character: its value exactly when it is a hex digit |
| Parsers.HexChannelPair | src/rgb.ts:92-98 | a doubled character: 17 times its value exactly when it is a hex digit |
| Parsers.ParseHexShort | src/rgb.ts:91-99 | `#RGB` gives RGB or a NaN channel |
| Parsers.ParseHexLong | src/rgb.ts:102-110 | `#RRGGBB` gives RGB or a NaN channel |
| Parsers.ParseHex | src/rgb.ts:76-88 | lengths other than 4 and 7 throw "Invalid color" |
| Parsers.ParseRgb | src/rgb.ts:61-73 | text starting with neither "#" nor "rgb" throws "Invalid color" |
| Parsers.Parse | src/hsl.ts:108-119 | each class's `_parse`: a tuple of its space or "Invalid color" (NaN only for hex) |
| Parsers.PrintedNumbers | src/cmyk.ts:53-57 | the numbers a `string` getter prints, one per channel |
| Parsers.PrintedPercents | src/hsv.ts:56-60 | which printed numbers get "%", one per channel |
| Parsers.Show | src/hsv.ts:56-60 | the `string` text, unproduced exactly when a printed number is not whole |
| Parsers.HexText | src/color.ts:197-199 | the `hex` text of channels in [0, 255] has 7 characters |
| Parsers.HexShortChannels | src/rgb.ts:91-99 | `#RGB` succeeds exactly for three hex digits; channels 17·d, multiples of 17 in [0, 255] |
| Parsers.HexShortDoubles | src/rgb.ts:91-110 | `#RGB` parses as `#RRGGBB` with each digit doubled, failures included |
| Parsers.HexLongChannels | src/rgb.ts:102-110 | `#RRGGBB` succeeds exactly when all three pairs read, and gives those numbers |
| Parsers.HexChannelByte | src/rgb.ts:103-105 | the two digits printed for a byte are read back as it |
| Parsers.HexRoundTrip | src/color.ts:188-200 | the `hex` text of channels in [0, 255] parses back to them |
| Parsers.PrintedAllowed | src/hwb.ts:57-61 | every "%" the `string` getter prints is one the class's pattern accepts |
| Parsers.CapturesOfPrinted | src/hsv.ts:95-97 | storing the captured printed numbers gives the tuple back |
| Parsers.ShowNotation | src/lib/hwb.ts:71-73 | the `string` text starts with the name and its notation parses back to the tuple |
| Parsers.ShowParse | src/rgb.ts:57-59 | `_parse` inverts `string` for whole non-negative printed numbers, no range checked |
| Parsers.NotationDispatch | src/rgb.ts:67-70 | RGB text starting "rgb" is read by the functional notation |
| Parsers.LaxHsl | src/hsl.ts:109 | `hsl(0, 100%, 50)` is accepted as (0, 1, 0.5) |
| Parsers.StrictHsv | src/lib/hsv.ts:108 | the newer HSV class rejects `hsv(0, 100%, 50)` |
| Parsers.ParseExamples | src/rgb.ts:61-88 | `#fff` is white; `#ff` and `red` throw |
| Cache.SlotsOf | src/lib/color.ts:22-34 | `_h` is written by HSL, HSV, HWB; `_s` by HSL, HSV; `_k` by CMYK and HWB |
| Cache.Store | src/color.ts:46-50 | a tuple write fills exactly its space's slots and keeps the rest and `_hex` |
| Cache.Own | src/hsl.ts:88-90 | the own tuple is what the own slots hold |
| Cache.ToRgb | src/lib/hwb.ts:129-132 | each class's `_rgb` gives RGB or throws |
| Cache.FromRgb | src/lib/color.ts:468-541 | the static RGB helpers, failing exactly out of gamut where a division is by zero |
| Cache.Convert | src/hsl.ts:83-106 | each class's helper answers in the space asked for; its own space is its own tuple |
| Cache.Present | src/lib/color.ts:358-364 | newer getters round (whole hue and RGB, two-decimal ratios); older ones return the slot |
| Cache.Read | src/lib/color.ts:156-414 | a getter keeps the own slots filled and `_hex` unchanged, and returns its slot as presented |
| Cache.ReadKeeps | src/color.ts:41-186 | a getter never empties a slot |
| Cache.ReadFilled | src/color.ts:41-44 | a filled slot is returned and nothing changes |
| Cache.ReadEmpty | src/lib/color.ts:157-159 | an empty slot: the helper's whole tuple is written and no other slot; a throw writes nothing |
| Cache.ReadFills | src/color.ts:46-50 | an empty slot: the getter throws the helper's error or returns its channel of the tuple |
| Cache.ReadTwice | src/lib/color.ts:345-351 | a second read returns the same value and changes nothing |
| Cache.OwnChannels | src/hsl.ts:12-30 | own-channel getters never call a helper |
| Cache.ReadAll | src/hsl.ts:32-34 | getters read in order; one value per getter |
| Cache.Getters | src/hsl.ts:36-63 | the getters a space is read through, key read as blackness |
| Cache.Reads | src/hsl.ts:49-55 | one value per channel of the space |
| Cache.Presented | src/lib/color.ts:161 | a tuple as presented stays in its space; the older class presents it raw |
| Cache.ArrayStep | src/lib/hsv.ts:32-34 | `array` keeps the own slots filled |
| Cache.StringStep | src/lib/hsv.ts:78-80 | `string` keeps the own slots filled |
| Cache.ReadAllFilled | src/color.ts:41-44 | getters over filled slots change nothing and return the slots |
| Cache.ReadAllKeeps | src/color.ts:41-186 | a run of getters never empties a slot |
| Cache.ReadAllFills | src/lib/color.ts:156-414 | after a successful run every getter's slot is filled |
| Cache.ReadsFill | src/lib/color.ts:156-414 | after a space's getters succeed its slots are filled |
| Cache.OwnArray | src/rgb.ts:49-51 | `array` reads only own slots: no helper, no change, the presented own tuple |
| Cache.OwnValues | src/cmyk.ts:45-47 | the own slots read through the getters are the presented own tuple |
| Cache.StoreOwn | src/hsl.ts:88-90 | writing the own tuple back changes nothing |
| Cache.PrintablePresented | src/lib/color.ts:161 | whole non-negative printed numbers are presented unchanged |
| Cache.StringRoundTrip | src/lib/hwb.ts:71-73 | `string` changes nothing and its text parses back to the own tuple |
| Cache.HexStep | src/lib/color.ts:254-262 | `hex` stores the text it returns |
| Cache.HexOf | src/color.ts:197-199 | the hex text exists exactly for whole channels |
| Cache.HexOnce | src/color.ts:188-191 | once returned, `hex` returns the same text and changes nothing |
| Cache.NewerHexRenders | src/lib/color.ts:254-262 | newer `hex` fails only when reading the RGB channels throws |
| Cache.ReadAllWhole | src/lib/color.ts:345-351 | newer RGB getters return whole numbers |
| Cache.RoundedWhole | src/lib/color.ts:174 | a newer RGB getter returns a whole number |
| Cache.HexParsesBack | src/color.ts:188-200 | with whole RGB channels in [0, 255], the `hex` text parses back to them |
| Cache.HexFromReads | src/lib/color.ts:254-262 | with no stored text, `hex` is the text of the RGB getters |
| Cache.HexOfParses | src/rgb.ts:76-110 | the hex text of whole channels in [0, 255] parses back to them |
| Cache.SharedSaturation | src/color.ts:100-131 | after `hue`/`lightness`/`brightness` fill an empty slot, `saturation` is that tuple's saturation |
| Cache.SharedKey | src/lib/color.ts:214-220 | the CMYK key and HWB blackness reached through `_rgb` agree |
| Cache.CyanOverwritesBlackness | src/lib/color.ts:214-220 | for an HWB colour, `cyan` replaces the blackness in `_k` by the CMYK key |
| Cache.GreyHwbToCmyk | src/lib/hwb.ts:75-78 | hwb(0, 80%, 80%): key 0.5, so `blackness` says 0.5 after `cyan` |
| Cache.CmykRedFixture | src/cmyk.ts:63-89 | cmyk(0%, 100%, 100%, 0%) is rgb(255, 0, 0), hsl(0, 1, 0.5), hsv(0, 1, 1) |
| Cache.OldHsvFixtures | src/hsv.ts:87-89 | hsv(0, 0%, 100%) is white, hsv(0, 0%, 0%) black |
| Cache.OldHwbFixtures | src/hwb.ts:104-107 | hwb(0,100%,0%) white, hwb(0,0%,100%) black, hwb(0,0%,0%) red |
| Cache.Normalize | src/hsl.ts:19-28 | saturation 0 gives hue 0 (HSL, newer HSV), else the hue rule; others kept |
| Cache.Initial | src/lib/hsv.ts:12-30 | an object-built colour holds its normalised tuple and nothing else |
| Cache.FromText | src/lib/hwb.ts:12-23 | a string-built colour holds the parsed tuple, or throws what `_parse` throws |
| Cache.ToStep | src/hsl.ts:49-55 | the conversions as written keep the own slots filled and yield the target space's tuple for the new colour |
| Cache.HslFromFields | src/hsl.ts:19-28 | the HSL constructor on an object succeeds exactly when `saturation` and `lightness` are given and so is `hue` unless the saturation is 0; it stores the normalised tuple, grey for saturation 0, and a missing key gives `NonFinite` |
| Cache.OlderHslFields | src/rgb.ts:33-35 | the older `hsl()` argument carries none of the keys `hue`, `saturation`, `lightness` |
| Cache.HslFields | src/hsl.ts:19-28 | the object with exactly the keys the HSL constructor reads, holding the tuple |
| Cache.OlderHslUnread | src/rgb.ts:33-35 | whenever an older class's `hsl()` gets its tuple, the HSL constructor given `{h, s, l}` fails with a NaN hue |
| Cache.OlderHslIntended | src/hsl.ts:19-28 | the same tuple under the keys the constructor reads builds the HSL colour whose own slots are that tuple, normalised |
| Cache.IntendedStep | src/hsl.ts:49-55 | the conversions as intended: succeeds exactly when the helper does |
| Cache.IntendedIsFreshTuple | src/hsl.ts:49-55 | afterwards the target's getters return exactly the channels built |
| Cache.IntendedAgreesOnFreshRgb | src/hsl.ts:73-75 | `rgb()` from empty RGB slots is the intended conversion |
| Cache.StaleSaturation | src/hsl.ts:49-55 | as written, `hsv()` of hsl(0, 50%, 75%) is hsv(0, 0.5, 0.88) |
| Cache.StaleReads | src/lib/color.ts:358-364 | the three reads behind it: `saturation` returns the HSL 0.5 before `brightness` writes HSV |
| Cache.IntendedSaturation | src/hsl.ts:49-55 | as intended it is hsv(0, 0.29, 0.88) |
| Cache.HslToHsvExample | src/hsl.ts:92-101 | hsl(0, 50%, 75%) is hsv(0, 2/7, 0.875) |
| Transforms.Group | src/lib/color.ts:132-149 | RGB if red/green/blue named, else HWB, else HSL; none exactly when nothing named |
| Transforms.AdjustHue | src/lib/color.ts:551-553 | the intended hue: in [0, 360), a whole number of turns from h + d |
| Transforms.AdjustHueAsWritten | src/lib/color.ts:551-553 | the hue as written: a whole number of turns from h + d |
| Transforms.AdjustHueAsWrittenInRange | src/lib/color.ts:592-594 | the hue as written lies in [0, 360) exactly when d > 0 matches a non-negative `(h + d) % 360`, and then equals the intended hue |
| Transforms.AdjustHueOvershoots | src/lib/color.ts:592-594 | a negative d with h + d >= 0 gives intended + 360, in [360, 720) |
| Transforms.AdjustHueExample | src/lib/color.ts:592-594 | hue 200 adjusted by -20: 540 as written, 180 intended |
| Transforms.AdjustBy | src/lib/color.ts:629-635 | adjust gives cur + d whenever that lies in [0, top]; otherwise it stops at the bound, never passing cur + d nor moving an in-range value against the sign of d |
| Transforms.Scaled | src/lib/color.ts:763-788 | scale keeps [0, top]; f in (0, 1] closes the gap to top by f, -1 <= f < 0 multiplies by 1 + f, beyond reaches the end |
| Transforms.ChannelStep | src/lib/color.ts:555-566 | a channel: refused exactly when acting and out of range; untouched when not acting; change sets it |
| Transforms.Transform | src/lib/color.ts:544-582 | succeeds exactly when no named channel is refused; the error names the first refused in order |
| Transforms.TransformStep | src/lib/color.ts:190-207 | no group: the receiver, nothing changed; otherwise the group's reads and the tuple in the receiver's space |
| Transforms.TransformThrows | src/lib/color.ts:662-690 | after the reads it throws exactly when an amount is refused, naming the first |
| Transforms.ScaleNeverThrows | src/lib/color.ts:791-813 | `scale` fails exactly when its reads fail |
| Transforms.UnnamedKept | src/lib/color.ts:626-659 | channels not acted on keep their first read |
| Transforms.ChangeSets | src/lib/color.ts:693-725 | `change` sets named ratios to the amount and the hue to amount % 360 |
| Transforms.AdjustByZero | src/lib/color.ts:544-582 | zero amounts give the first reads back |
| Transforms.ComplementStep | src/lib/color.ts:225-227 | `complement` keeps the own slots filled |
| Transforms.GrayscaleStep | src/lib/color.ts:232-234 | `grayscale` keeps the own slots filled |
| Transforms.ComplementTurnsHue | src/lib/color.ts:225-227 | the complement keeps saturation and lightness and turns the hue by 180 into [0, 360) |
| Transforms.ComplementTuple | src/lib/color.ts:551-553 | the tuple: hue turned by 180, others kept |
| Transforms.ComplementHueAsWritten | src/lib/color.ts:551-553 | the complement's hue as written equals the model's whenever h + 180 >= 0 |
| Transforms.ComplementHueExample | src/lib/color.ts:551-553 | a stored hue of -300 complements to -120 as written, 240 in the model |
| Transforms.GrayscaleClearsSaturation | src/lib/color.ts:232-234 | grayscale keeps hue and lightness, saturation 0, never throws |
| Transforms.GrayscaleTuple | src/lib/color.ts:704-712 | the tuple: saturation 0, hue and lightness kept |
| Transforms.InvertOptions | src/lib/color.ts:281-285 | each RGB channel's amount is 255 minus it |
| Transforms.InvertStep | src/lib/color.ts:280-286 | `invert` keeps the own slots filled |
| Transforms.InvertComplementsRgb | src/lib/color.ts:280-286 | the inverse is 255 - c per channel, a RangeError exactly when a channel is outside 0..255 |
| Transforms.InvertTuple | src/lib/color.ts:662-690 | the tuple `change` makes of the invert options |
| Transforms.InvertInvolution | src/lib/color.ts:662-690 | inverting the inverted channels gives them back |
| Transforms.TransformStepOf | src/lib/color.ts:371-388 | after the reads, a transform is the tuple Transform of them in the receiver's space |
| Transforms.MixChannel | src/lib/color.ts:333-335 | weight 1 gives mine, 0 theirs, between both in [0, 1] |
| Transforms.MixStep | src/lib/color.ts:323-338 | `mix` keeps both colours' own slots filled |
| Transforms.MixOfReads | src/lib/color.ts:323-338 | a mix is the channel mix of both colours' RGB reads and leaves each as those reads do |
| Transforms.MixSelfStep | src/lib/color.ts:323-338 | `c.mix(c, w)` keeps the own slots filled |
| Transforms.MixSelfIsOwnRgb | src/lib/color.ts:323-338 | mixing a colour with itself gives its own RGB reads at every weight |
| Colors.Color.constructor | src/hsl.ts:12-30 | an object-built colour's fields are the normalised tuple |
| Colors.Color.Parsed | src/rgb.ts:11-22 | a string-built colour's fields are the parsed tuple |
| Colors.Color.FromString | src/lib/hwb.ts:12-23 | `new X(string)`: a fresh colour of the parsed tuple, or the `_parse` error |
| Colors.Color.Put | src/lib/color.ts:158 | a destructuring write overwrites the tuple's slots |
| Colors.Color.Get | src/lib/color.ts:269-275 | a getter performs `Read` on the fields |
| Colors.Color.GetAll | src/lib/hwb.ts:25-27 | getters in order perform `ReadAll` |
| Colors.Color.Array | src/lib/hwb.ts:25-27 | `array` performs `ArrayStep` |
| Colors.Color.Text | src/lib/hwb.ts:71-73 | `string` performs `StringStep` |
| Colors.Color.Hex | src/lib/color.ts:254-262 | `hex` performs `HexStep` |
| Colors.Color.To | src/lib/hwb.ts:38-52 | a conversion performs `IntendedStep` |
| Colors.Color.Apply | src/lib/color.ts:555-566 | one `if (amount)` block performs `ChannelStep` on the current read, state unchanged |
| Colors.Color.Transform | src/lib/color.ts:371-388 | `adjust`/`change`/`scale` perform `TransformStep` |
| Colors.Color.Complement | src/lib/color.ts:225-227 | `complement` performs `ComplementStep` |
| Colors.Color.Grayscale | src/lib/color.ts:232-234 | `grayscale` performs `GrayscaleStep` |
| Colors.Color.Invert | src/lib/color.ts:280-286 | `invert` performs `InvertStep` |
| Colors.Color.Mix | src/lib/color.ts:323-338 | `mix` performs `MixStep` on two colours, `MixSelfStep` on one |
| Colors.Color.MixSelf | src/lib/color.ts:323-338 | `c.mix(c, w)` performs `MixSelfStep` |

## Left out

- IEEE-754 arithmetic: channels are exact reals and `Math.round(x)` is floor(x + 1/2), so float artefacts (for example `0.07 * 100` printing as `7.000000000000001`) are not reproduced. Where the source divides by zero and carries on with Infinity or NaN (RGB→HSL out of gamut), the model reports `NonFinite`.
- The regular-expression engine, `parseInt`, `toString(16)` and `padStart` are written out as recognisers and digit functions over strings; only the features the patterns use are modelled.
- Parsers.ParseHexShort, Parsers.ParseHexLong: where the older RGB parser stores NaN for a non-hex character and carries on, the model stops with `Failure(NonFinite)`.
- Printing a number that is not whole (a fractional channel in `hex` or in `string`) is not modelled: `Show` and `HexOf` report `Unrendered` for it.
- src/lib/rgb, src/lib/hsl, src/lib/cmyk and src/lib/types are not part of this model: a conversion or transform that builds a colour of another class yields a `Rebuilt` or `Transformed` outcome (the tuple, its space, the target space) rather than the new object.
- Class polymorphism and the circular imports are replaced by dispatch on `Kind`; the `object` getters, which read the same getters as `array` under key names, are not modelled separately.
- `'red' in options` and an option given as `undefined` are not distinguished: an option is either given with a number or absent.
- Transforms are modelled for the newer base class only, which is where the source defines them.
- Cache.ToStep: the conversions as written are a function only; `Colors.Color.To` performs the corrected conversion (see Findings). For an older class (src/rgb.ts:33-35, src/cmyk.ts:29-31, src/hsv.ts:32-34, src/hwb.ts:33-35) its `hsl()` outcome is the HSL tuple, while in the source the HSL constructor does not read the `{h, s, l}` object it is given and the new colour has a NaN hue (third Findings row, `Cache.OlderHslUnread`).
- Colors.Color.To: performs the corrected `IntendedStep`, so the new colour receives the saturation computed for the target space, not what the shared `_s` slot holds, which the source passes on (src/hsl.ts:49-55, src/lib/hsv.ts:45-51, and the older `hsv()` at src/rgb.ts:38, src/cmyk.ts:34, src/hwb.ts:38); the as-written conversion is `Cache.ToStep`, with `Cache.StaleSaturation` showing the difference.
- src/hsl.ts imports the older `./color`, `./cmyk`, `./hsv`, `./hwb` and `./rgb` (src/hsl.ts:1-5), yet calls members only the newer base class has (`_space`, `HSL._rgbToCmyk`, `HSL._rgbToHwb`) and builds its HSV and HWB colours from `{hue, saturation, value}` and `{hue, whiteness, blackness}` keys, which the older HSV and HWB constructors do not read. The model reads it as a class of the newer family whose siblings are the newer HSV and HWB classes; under the older getters the brightness in the first Findings row would be presented as 0.875 rather than 0.88.
- Transforms.ChannelStep: an acting `adjust` of the hue gives the corrected `AdjustHue`, in [0, 360). The source gives `AdjustHueAsWritten`, which differs from it by whole turns: it lies in [360, 720) when d < 0 <= h + d and is negative when h + d < 0 < d. The two agree exactly when the as-written hue lies in [0, 360) (`AdjustHueAsWrittenInRange`).
- Transforms.Transform: its hue channel under `adjust` is the corrected hue of `Transforms.ChannelStep`, not the hue as written.
- Transforms.TransformStep: an `adjust` of the hue yields the corrected hue of `Transforms.ChannelStep`, not the hue as written.
- Transforms.TransformStepOf: states the tuple with the corrected adjusted hue of `Transforms.ChannelStep`, not the hue as written.
- Transforms.ComplementStep: turns the hue by 180 with the corrected `AdjustHue`. The hue as written agrees whenever the stored hue is at least -180 (`ComplementHueAsWritten`), and not otherwise: a stored -300 gives -120 in the source and 240 here (`ComplementHueExample`).
- Transforms.ComplementTurnsHue: the turned hue's range [0, 360) is a property of the corrected adjust. As written it holds only for stored hues of at least -180.
- Transforms.ComplementTuple: states the corrected turned hue; as written, the hue equals it only when the stored hue is at least -180.
- Colors.Color.Apply: performs `Transforms.ChannelStep`, so an acting hue `adjust` stores the corrected hue, not the hue as written.
- Colors.Color.Transform: performs `Transforms.TransformStep`, with the corrected adjusted hue.
- Colors.Color.Complement: performs `Transforms.ComplementStep`, with the corrected turned hue.
- Transforms on a newer HSV colour read the shared `_s` slot through `saturation`, which may hold the HSV saturation; the model reproduces this as it reads, and states no property about which saturation it is.
- Colors.Color.Mix: the source's doc comment says the weight goes to the other colour; the code, which the model follows, gives it to the receiver.
- Transforms.InvertInvolution is stated on the tuple `change` computes; the double inversion of a colour object needs the unshown RGB constructor.
- The test files and src/index.ts (whose members all throw "Not implemented") are not modelled; a few of the tests' concrete colours appear as example lemmas.

## Findings

| source | as written | input that shows it | evidently intended | confidence | as-written member | corrected member |
|---|---|---|---|---|---|---|
| src/hsl.ts:49-55 | `hsv()` reads `saturation` before `brightness`; `_s` still holds the HSL saturation, which the new HSV colour receives (also src/lib/hsv.ts:45-51 and the older `hsv()` at src/rgb.ts:38, src/cmyk.ts:34 and src/hwb.ts:38, where `_s` is shared the same way) | `hsl(0, 50%, 75%).hsv()` gives hsv(0, 0.5, 0.88) | hsv(0, 0.29, 0.88): the HSV saturation 2/7 | not executed | Cache.StaleSaturation | Cache.IntendedSaturation |
| src/lib/color.ts:592-594 | a negative hue delta gives `((h + d) % 360) + 360`, which is in [360, 720) whenever h + d >= 0 (same at 551-553) | `hwb(200, 0%, 0%).adjust({whiteness: 0.1, hue: -20})` gives hue 540 | hue 180, inside [0, 360) | not executed | Transforms.AdjustHueOvershoots | Transforms.AdjustHue |
| src/rgb.ts:33-35 | the older classes' `hsl()` (also src/cmyk.ts:29-31, src/hsv.ts:32-34, src/hwb.ts:33-35) pass `{h, s, l}`, while the HSL constructor reads `hue`, `saturation` and `lightness` | `new RGB("#ff0000").hsl()` gives a colour whose `_h` is `(undefined % 360) + 360`, NaN, and whose `_s` and `_l` are undefined | hsl(0, 100%, 50%), as the tests of `hsl()` expect | not executed | Cache.OlderHslUnread | Cache.OlderHslIntended |
