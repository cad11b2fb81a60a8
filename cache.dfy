/**
 * The lazy channel cache of both base classes. A colour keeps thirteen
 * nullable slots `_c _m _y _k _h _s _l _v _w _r _g _b _hex`; a getter whose
 * slot is empty asks the class's helper for the whole tuple of its space and
 * writes every slot of that tuple, then returns its own slot (rounded by the
 * newer base class, raw by the older one). Slots are never emptied again,
 * and `_h`, `_s` and `_k` are shared: HSL, HSV and HWB all write `_h`, HSL
 * and HSV both write `_s`, and CMYK key and HWB blackness both live in `_k`.
 */
module Cache {
  import opened Wrappers
  import opened Numbers
  import opened Spaces
  import opened Conversions
  import opened Kernel
  import opened LegacyKernel
  import opened Parsers

  /** The twelve numeric slots. */
  datatype Slot = C | M | Y | K | H | S | L | V | W | R | G | B

  /** The state of the cache: every slot empty (`None`) or filled. */
  datatype Slots = Slots(
    c: Option<real>, m: Option<real>, y: Option<real>, k: Option<real>,
    h: Option<real>, s: Option<real>, l: Option<real>, v: Option<real>,
    w: Option<real>, r: Option<real>, g: Option<real>, b: Option<real>,
    hex: Option<string>)

  /** A colour before its constructor runs: every slot empty. */
  const Empty := Slots(None, None, None, None, None, None, None, None, None, None, None, None, None)

  /** The content of one slot. */
  function At(sl: Slots, t: Slot): Option<real> {
    match t
    case C => sl.c
    case M => sl.m
    case Y => sl.y
    case K => sl.k
    case H => sl.h
    case S => sl.s
    case L => sl.l
    case V => sl.v
    case W => sl.w
    case R => sl.r
    case G => sl.g
    case B => sl.b
  }

  /** The slot a getter reads; `key` and `blackness` share `_k`. */
  function SlotOf(ch: Channel): Slot {
    match ch
    case Cyan => C
    case Magenta => M
    case Yellow => Y
    case Key | Blackness => K
    case Hue => H
    case Saturation => S
    case Lightness => L
    case Brightness => V
    case Whiteness => W
    case Red => R
    case Green => G
    case Blue => B
  }

  /** The slots a tuple of a space is written into. */
  function SlotsOf(sp: Space): (ts: set<Slot>)
    ensures H in ts <==> sp in {HSL, HSV, HWB}
    ensures S in ts <==> sp in {HSL, HSV}
    ensures K in ts <==> sp in {CMYK, HWB}
  {
    match sp
    case CMYK => {C, M, Y, K}
    case HSL => {H, S, L}
    case HSV => {H, S, V}
    case HWB => {H, W, K}
    case RGB => {R, G, B}
  }

  /** The value a tuple writes into one of its slots. */
  function Component(x: Values, t: Slot): real
    requires t in SlotsOf(x.SpaceOf())
  {
    match x
    case Cmyk(c, m, y, k) => (match t case C => c case M => m case Y => y case _ => k)
    case Hsl(h, s, l) => (match t case H => h case S => s case _ => l)
    case Hsv(h, s, v) => (match t case H => h case S => s case _ => v)
    case Hwb(h, w, k) => (match t case H => h case W => w case _ => k)
    case Rgb(r, g, b) => (match t case R => r case G => g case _ => b)
  }

  /**
   * A getter's destructuring assignment: every slot of the tuple's space
   * receives its component, whatever it held; every other slot, and the
   * hex text, keeps its content.
   */
  function Store(sl: Slots, x: Values): (out: Slots)
    ensures forall t :: At(out, t) == if t in SlotsOf(x.SpaceOf()) then Some(Component(x, t)) else At(sl, t)
    ensures out.hex == sl.hex
  {
    match x
    case Cmyk(c, m, y, k) => sl.(c := Some(c), m := Some(m), y := Some(y), k := Some(k))
    case Hsl(h, s, l) => sl.(h := Some(h), s := Some(s), l := Some(l))
    case Hsv(h, s, v) => sl.(h := Some(h), s := Some(s), v := Some(v))
    case Hwb(h, w, k) => sl.(h := Some(h), w := Some(w), k := Some(k))
    case Rgb(r, g, b) => sl.(r := Some(r), g := Some(g), b := Some(b))
  }

  /** The slots of a class's own space are filled (by its constructor, and never emptied). */
  predicate Owned(kind: Kind, sl: Slots) {
    match kind.Home()
    case CMYK => sl.c.Some? && sl.m.Some? && sl.y.Some? && sl.k.Some?
    case HSL => sl.h.Some? && sl.s.Some? && sl.l.Some?
    case HSV => sl.h.Some? && sl.s.Some? && sl.v.Some?
    case HWB => sl.h.Some? && sl.w.Some? && sl.k.Some?
    case RGB => sl.r.Some? && sl.g.Some? && sl.b.Some?
  }

  /**
   * The tuple a class's helpers start from: its own slots as they are now,
   * which a shared-slot write of another space may have overwritten.
   */
  function Own(kind: Kind, sl: Slots): (x: Values)
    requires Owned(kind, sl)
    ensures x.SpaceOf() == kind.Home()
    ensures forall t :: t in SlotsOf(kind.Home()) ==> At(sl, t) == Some(Component(x, t))
  {
    match kind.Home()
    case CMYK => Cmyk(sl.c.value, sl.m.value, sl.y.value, sl.k.value)
    case HSL => Hsl(sl.h.value, sl.s.value, sl.l.value)
    case HSV => Hsv(sl.h.value, sl.s.value, sl.v.value)
    case HWB => Hwb(sl.h.value, sl.w.value, sl.k.value)
    case RGB => Rgb(sl.r.value, sl.g.value, sl.b.value)
  }

  /**
   * A class's `_rgb` helper: the HSL chroma method, the exact or rounding
   * HSV sector method (after HWB to HSV for the HWB classes), the older CMYK
   * formula, or the RGB class's own slots.
   */
  function ToRgb(kind: Kind, x: Values): (t: Result<Values, Fault>)
    requires x.SpaceOf() == kind.Home()
    ensures t.Success? ==> t.value.Rgb?
    ensures t.Failure? ==> t.error == Thrown
  {
    match kind
    case NewHsl => Success(HslToRgb(x.h, x.s, x.l))
    case NewHsv => HsvToRgb(x.h, x.s, x.v)
    case NewHwb => var y := HwbToHsv(x.h, x.w, x.k); HsvToRgb(y.h, y.s, y.v)
    case OldRgb => Success(x)
    case OldCmyk => Success(CmykToRgb(x.c, x.m, x.y, x.k))
    case OldHsv => LegacyHsvToRgb(x.h, x.s, x.v)
    case OldHwb => var y := HwbToHsv(x.h, x.w, x.k); LegacyHsvToRgb(y.h, y.s, y.v)
  }

  /**
   * The static RGB helpers of the newer (exact) or older (rounding) base
   * class; where the source divides by zero (only out of gamut) the result
   * is `NonFinite`.
   */
  function FromRgb(newer: bool, c: Values, sp: Space): (t: Result<Values, Fault>)
    requires c.Rgb? && sp != RGB
    ensures t.Success? ==> t.value.SpaceOf() == sp
    ensures t.Failure? <==> sp != CMYK && !HslDefined(c.r, c.g, c.b)
    ensures t.Failure? ==> t.error == NonFinite
  {
    if sp == CMYK then Success(if newer then RgbToCmyk(c.r, c.g, c.b) else LegacyRgbToCmyk(c.r, c.g, c.b))
    else if !HslDefined(c.r, c.g, c.b) then Failure(NonFinite)
    else
      match sp
      case HSL => Success(if newer then RgbToHsl(c.r, c.g, c.b) else LegacyRgbToHsl(c.r, c.g, c.b))
      case HSV => Success(if newer then RgbToHsv(c.r, c.g, c.b) else LegacyRgbToHsv(c.r, c.g, c.b))
      case HWB => Success(if newer then RgbToHwb(c.r, c.g, c.b) else LegacyRgbToHwb(c.r, c.g, c.b))
  }

  /**
   * The helper `_cmyk`, `_hsl`, `_hsv`, `_hwb` or `_rgb` of a class: its own
   * slots for its own space, a direct formula between HSL, HSV and HWB where
   * the class has one, and otherwise a detour through its `_rgb`.
   */
  function Convert(kind: Kind, x: Values, sp: Space): (t: Result<Values, Fault>)
    requires x.SpaceOf() == kind.Home()
    ensures t.Success? ==> t.value.SpaceOf() == sp
    ensures sp == kind.Home() ==> t == Success(x)
  {
    if sp == kind.Home() then Success(x)
    else if sp == RGB then ToRgb(kind, x)
    else if kind == NewHsl && sp == HSV then Success(HslToHsv(x.h, x.s, x.l))
    else if kind == NewHsv && sp == HSL then Success(HsvToHsl(x.h, x.s, x.v))
    else if kind == OldHsv && sp == HSL then Success(RoundedHsvToHsl(x.h, x.s, x.v))
    else if kind in {NewHwb, OldHwb} && sp == HSV then Success(HwbToHsv(x.h, x.w, x.k))
    else if kind in {NewHwb, OldHwb} && sp == HSL then Success(HwbToHsl(x.h, x.w, x.k))
    else
      var c :- ToRgb(kind, x);
      FromRgb(kind.Newer(), c, sp)
  }

  /**
   * The helpers a subclass gives the base class's getters: from the own
   * tuple, the tuple of the space asked for, or the error thrown. The
   * getters, `array`, `string`, `hex` and the conversions are the base
   * class's and work with any helpers that answer in the space asked for.
   */
  type Helper = f: (Values, Space) -> Result<Values, Fault> | Answers(f)
    witness (x: Values, sp: Space) => Failure(Thrown)

  /** Every tuple the helpers return is of the space asked for. */
  ghost predicate Answers(f: (Values, Space) -> Result<Values, Fault>) {
    forall x, sp :: f(x, sp).Success? ==> f(x, sp).value.SpaceOf() == sp
  }

  /**
   * The helpers of a class, `Convert` on its own tuple (the getters call
   * them on nothing else).
   */
  function Helpers(kind: Kind): Helper {
    (x: Values, sp: Space) => if x.SpaceOf() == kind.Home() then Convert(kind, x, sp) else Failure(Thrown)
  }

  /** The getters a class has: `key` exists only on the older base class. */
  predicate HasGetter(kind: Kind, ch: Channel) {
    ch == Key ==> !kind.Newer()
  }

  /**
   * What a getter returns for the content of its slot: the newer base class
   * rounds hue and RGB channels to whole numbers and every ratio to two
   * decimals; the older one returns the slot as it is.
   */
  function Present(kind: Kind, ch: Channel, raw: real): (x: real)
    ensures !kind.Newer() ==> x == raw
    ensures kind.Newer() && ch in {Hue, Red, Green, Blue} ==> x == Round(raw) as real
    ensures kind.Newer() && ch !in {Hue, Red, Green, Blue} ==> x == Round2(raw)
  {
    if !kind.Newer() then raw
    else if ch in {Hue, Red, Green, Blue} then Round(raw) as real
    else Round2(raw)
  }

  /** Every filled slot of `sl` is still filled in `out`. */
  predicate Keeps(sl: Slots, out: Slots) {
    (sl.c.Some? ==> out.c.Some?) && (sl.m.Some? ==> out.m.Some?) && (sl.y.Some? ==> out.y.Some?) &&
    (sl.k.Some? ==> out.k.Some?) && (sl.h.Some? ==> out.h.Some?) && (sl.s.Some? ==> out.s.Some?) &&
    (sl.l.Some? ==> out.l.Some?) && (sl.v.Some? ==> out.v.Some?) && (sl.w.Some? ==> out.w.Some?) &&
    (sl.r.Some? ==> out.r.Some?) && (sl.g.Some? ==> out.g.Some?) && (sl.b.Some? ==> out.b.Some?)
  }

  /** The outcome of an operation on the cache: what it returns or throws, and the slots afterwards. */
  datatype Step<T> = Step(result: Result<T, Fault>, after: Slots)

  /**
   * A channel getter: the slot's content when it is filled; otherwise the
   * helper's tuple for the channel's space is written and the getter
   * returns its slot. A helper that throws leaves the slots as they were.
   */
  function Read(kind: Kind, help: Helper, sl: Slots, ch: Channel): (st: Step<real>)
    requires Owned(kind, sl) && HasGetter(kind, ch)
    ensures Owned(kind, st.after) && st.after.hex == sl.hex
    ensures st.result.Success? ==>
      At(st.after, SlotOf(ch)).Some? && st.result.value == Present(kind, ch, At(st.after, SlotOf(ch)).value)
  {
    var t := SlotOf(ch);
    if At(sl, t).Some? then Step(Success(Present(kind, ch, At(sl, t).value)), sl)
    else
      match help(Own(kind, sl), SpaceOfChannel(ch))
      case Failure(e) => Step(Failure(e), sl)
      case Success(x) =>
        var out := Store(sl, x);
        assert t in SlotsOf(x.SpaceOf());
        StoreOwned(kind, sl, x);
        Step(Success(Present(kind, ch, At(out, t).value)), out)
  }

  /** A getter never empties a slot. */
  lemma ReadKeeps(kind: Kind, help: Helper, sl: Slots, ch: Channel)
    requires Owned(kind, sl) && HasGetter(kind, ch)
    ensures Keeps(sl, Read(kind, help, sl, ch).after)
  {
    if At(sl, SlotOf(ch)).None? {
      ReadFills(kind, help, sl, ch);
      var t := help(Own(kind, sl), SpaceOfChannel(ch));
      if t.Success? {
        StoreKeeps(sl, t.value);
      }
    } else {
      ReadFilled(kind, help, sl, ch);
    }
  }

  /** Storing a tuple empties no slot. */
  lemma StoreKeeps(sl: Slots, x: Values)
    ensures Keeps(sl, Store(sl, x))
  {
    match x
    case Cmyk(_, _, _, _) =>
    case Hsl(_, _, _) =>
    case Hsv(_, _, _) =>
    case Hwb(_, _, _) =>
    case Rgb(_, _, _) =>
  }

  /**
   * The getter calls a helper only when its slot is empty: a filled slot is
   * returned and nothing changes.
   */
  lemma ReadFilled(kind: Kind, help: Helper, sl: Slots, ch: Channel)
    requires Owned(kind, sl) && HasGetter(kind, ch) && At(sl, SlotOf(ch)).Some?
    ensures Read(kind, help, sl, ch) == Step(Success(Present(kind, ch, At(sl, SlotOf(ch)).value)), sl)
  {
  }

  /**
   * On an empty slot the getter writes the whole tuple of the channel's
   * space, exactly as the helper returns it, and no other slot; when the
   * helper throws nothing is written.
   */
  lemma ReadEmpty(kind: Kind, help: Helper, sl: Slots, ch: Channel)
    requires Owned(kind, sl) && HasGetter(kind, ch) && At(sl, SlotOf(ch)).None?
    ensures var t := help(Own(kind, sl), SpaceOfChannel(ch));
      var st := Read(kind, help, sl, ch);
      (t.Failure? ==> st == Step(Failure(t.error), sl)) &&
      (t.Success? ==>
         st.result.Success? &&
         (forall u :: u in SlotsOf(SpaceOfChannel(ch)) ==> At(st.after, u) == Some(Component(t.value, u))) &&
         (forall u :: u !in SlotsOf(SpaceOfChannel(ch)) ==> At(st.after, u) == At(sl, u)))
  {
  }

  /** A getter whose slot is empty throws what the helper throws, or stores its tuple and returns its own channel of it. */
  lemma ReadFills(kind: Kind, help: Helper, sl: Slots, ch: Channel)
    requires Owned(kind, sl) && HasGetter(kind, ch) && At(sl, SlotOf(ch)).None?
    ensures var t := help(Own(kind, sl), SpaceOfChannel(ch));
      (t.Failure? ==> Read(kind, help, sl, ch) == Step(Failure(t.error), sl)) &&
      (t.Success? ==> (SlotOf(ch) in SlotsOf(t.value.SpaceOf()) &&
         Read(kind, help, sl, ch) == Step(Success(Present(kind, ch, Component(t.value, SlotOf(ch)))), Store(sl, t.value))))
  {
  }

  /** Reading a channel twice returns the same value the second time and changes nothing more. */
  lemma ReadTwice(kind: Kind, help: Helper, sl: Slots, ch: Channel)
    requires Owned(kind, sl) && HasGetter(kind, ch) && Read(kind, help, sl, ch).result.Success?
    ensures var st := Read(kind, help, sl, ch); Read(kind, help, st.after, ch) == st
  {
  }

  /**
   * The slots of a class's own space are filled from its constructor on,
   * so the getters of its own channels never call a helper.
   */
  lemma OwnChannels(kind: Kind, help: Helper, sl: Slots, ch: Channel)
    requires Owned(kind, sl) && HasGetter(kind, ch) && SlotOf(ch) in SlotsOf(kind.Home())
    ensures Read(kind, help, sl, ch).after == sl
    ensures Read(kind, help, sl, ch).result == Success(Present(kind, ch, Component(Own(kind, sl), SlotOf(ch))))
  {
  }

  /**
   * The getters read in turn, left to right, as an array literal or a
   * template literal evaluates them; the first one that throws stops the
   * rest.
   */
  function ReadAll(kind: Kind, help: Helper, sl: Slots, chs: seq<Channel>): (st: Step<seq<real>>)
    requires Owned(kind, sl) && forall i :: 0 <= i < |chs| ==> HasGetter(kind, chs[i])
    ensures Owned(kind, st.after) && st.after.hex == sl.hex
    ensures st.result.Success? ==> |st.result.value| == |chs|
    decreases |chs|
  {
    if |chs| == 0 then Step(Success([]), sl)
    else
      var first := Read(kind, help, sl, chs[0]);
      if first.result.Failure? then Step(Failure(first.result.error), first.after)
      else
        var rest := ReadAll(kind, help, first.after, chs[1..]);
        if rest.result.Failure? then Step(Failure(rest.result.error), rest.after)
        else Step(Success([first.result.value] + rest.result.value), rest.after)
  }

  /**
   * The getters that give the channels of a space, in the order the
   * `array` and `string` getters and the `cmyk()` ... `rgb()` conversions
   * read them; the CMYK key is read through `blackness`.
   */
  function Getters(sp: Space): (chs: seq<Channel>)
    ensures |chs| == Arity(sp)
    ensures forall i :: 0 <= i < |chs| ==> chs[i] != Key && SlotOf(chs[i]) in SlotsOf(sp)
  {
    match sp
    case CMYK => [Cyan, Magenta, Yellow, Blackness]
    case HSL => [Hue, Saturation, Lightness]
    case HSV => [Hue, Saturation, Brightness]
    case HWB => [Hue, Whiteness, Blackness]
    case RGB => [Red, Green, Blue]
  }

  /** The getters of a space's channels, read in order: what `array` and the conversions read. */
  function Reads(kind: Kind, help: Helper, sl: Slots, sp: Space): (st: Step<seq<real>>)
    requires Owned(kind, sl)
    ensures Owned(kind, st.after) && st.after.hex == sl.hex
    ensures st.result.Success? ==> |st.result.value| == Arity(sp)
  {
    ReadAll(kind, help, sl, Getters(sp))
  }

  /** The tuple of a space whose channels, in order, are the given numbers. */
  function Tuple(sp: Space, vs: seq<real>): (x: Values)
    requires |vs| == Arity(sp)
    ensures x.SpaceOf() == sp && x.Array() == vs
  {
    match sp
    case CMYK => Cmyk(vs[0], vs[1], vs[2], vs[3])
    case HSL => Hsl(vs[0], vs[1], vs[2])
    case HSV => Hsv(vs[0], vs[1], vs[2])
    case HWB => Hwb(vs[0], vs[1], vs[2])
    case RGB => Rgb(vs[0], vs[1], vs[2])
  }

  /** A tuple as the getters of a class present it: rounded by the newer base class, raw by the older. */
  function Presented(kind: Kind, x: Values): (y: Values)
    ensures y.SpaceOf() == x.SpaceOf()
    ensures !kind.Newer() ==> y == x
  {
    match x
    case Cmyk(c, m, y, k) =>
      Cmyk(Present(kind, Cyan, c), Present(kind, Magenta, m), Present(kind, Yellow, y), Present(kind, Blackness, k))
    case Hsl(h, s, l) => Hsl(Present(kind, Hue, h), Present(kind, Saturation, s), Present(kind, Lightness, l))
    case Hsv(h, s, v) => Hsv(Present(kind, Hue, h), Present(kind, Saturation, s), Present(kind, Brightness, v))
    case Hwb(h, w, k) => Hwb(Present(kind, Hue, h), Present(kind, Whiteness, w), Present(kind, Blackness, k))
    case Rgb(r, g, b) => Rgb(Present(kind, Red, r), Present(kind, Green, g), Present(kind, Blue, b))
  }

  /** The `array` getter: the class's own channels through their getters. */
  function ArrayStep(kind: Kind, help: Helper, sl: Slots): (st: Step<seq<real>>)
    requires Owned(kind, sl)
    ensures Owned(kind, st.after)
  {
    Reads(kind, help, sl, kind.Home())
  }

  /**
   * The `string` getter: the class's functional notation of what its own
   * getters return (`Unrendered` when a printed number is not whole).
   */
  function StringStep(kind: Kind, help: Helper, sl: Slots): (st: Step<string>)
    requires Owned(kind, sl)
    ensures Owned(kind, st.after)
  {
    var a := ArrayStep(kind, help, sl);
    if a.result.Failure? then Step(Failure(a.result.error), a.after)
    else Step(Show(kind, Tuple(kind.Home(), a.result.value)), a.after)
  }

  /** What the getters of channels with filled slots return: each slot as the class presents it. */
  function FilledValues(kind: Kind, sl: Slots, chs: seq<Channel>): (vs: seq<real>)
    requires forall i :: 0 <= i < |chs| ==> At(sl, SlotOf(chs[i])).Some?
    ensures |vs| == |chs|
  {
    if |chs| == 0 then []
    else [Present(kind, chs[0], At(sl, SlotOf(chs[0])).value)] + FilledValues(kind, sl, chs[1..])
  }

  /** Entry i of the filled values is getter i's slot as the class presents it. */
  lemma {:induction false} FilledValuesAt(kind: Kind, sl: Slots, chs: seq<Channel>, i: nat)
    requires forall j :: 0 <= j < |chs| ==> At(sl, SlotOf(chs[j])).Some?
    requires i < |chs|
    ensures FilledValues(kind, sl, chs)[i] == Present(kind, chs[i], At(sl, SlotOf(chs[i])).value)
    decreases i
  {
    if i > 0 {
      FilledValuesAt(kind, sl, chs[1..], i - 1);
    }
  }

  /** Getters whose slots are all filled change nothing and return their slots. */
  lemma {:induction false} ReadAllFilled(kind: Kind, help: Helper, sl: Slots, chs: seq<Channel>)
    requires Owned(kind, sl) && forall i :: 0 <= i < |chs| ==> HasGetter(kind, chs[i])
    requires forall i :: 0 <= i < |chs| ==> At(sl, SlotOf(chs[i])).Some?
    ensures ReadAll(kind, help, sl, chs) == Step(Success(FilledValues(kind, sl, chs)), sl)
    decreases |chs|
  {
    if |chs| > 0 {
      ReadFilled(kind, help, sl, chs[0]);
      ReadAllFilled(kind, help, sl, chs[1..]);
    }
  }

  /** A slot a getter run keeps filled. */
  lemma KeptAt(sl: Slots, out: Slots, t: Slot)
    requires Keeps(sl, out) && At(sl, t).Some?
    ensures At(out, t).Some?
  {
  }

  /** A run of getters never empties a slot. */
  lemma {:induction false} ReadAllKeeps(kind: Kind, help: Helper, sl: Slots, chs: seq<Channel>)
    requires Owned(kind, sl) && forall i :: 0 <= i < |chs| ==> HasGetter(kind, chs[i])
    ensures Keeps(sl, ReadAll(kind, help, sl, chs).after)
    decreases |chs|
  {
    if |chs| > 0 {
      var first := Read(kind, help, sl, chs[0]);
      ReadKeeps(kind, help, sl, chs[0]);
      if first.result.Success? {
        var rest := ReadAll(kind, help, first.after, chs[1..]);
        assert ReadAll(kind, help, sl, chs).after == rest.after;
        ReadAllKeeps(kind, help, first.after, chs[1..]);
        KeepsTrans(sl, first.after, rest.after);
      }
    }
  }

  lemma KeepsTrans(a: Slots, b: Slots, c: Slots)
    requires Keeps(a, b) && Keeps(b, c)
    ensures Keeps(a, c)
  {
  }

  /** A run of getters that succeeds leaves the slot of every getter in it filled. */
  lemma {:induction false} ReadAllFills(kind: Kind, help: Helper, sl: Slots, chs: seq<Channel>)
    requires Owned(kind, sl) && forall i :: 0 <= i < |chs| ==> HasGetter(kind, chs[i])
    ensures var st := ReadAll(kind, help, sl, chs);
      st.result.Success? ==> forall i :: 0 <= i < |chs| ==> At(st.after, SlotOf(chs[i])).Some?
    decreases |chs|
  {
    if |chs| > 0 {
      var first := Read(kind, help, sl, chs[0]);
      if first.result.Success? {
        var rest := ReadAll(kind, help, first.after, chs[1..]);
        ReadAllFills(kind, help, first.after, chs[1..]);
        ReadAllKeeps(kind, help, first.after, chs[1..]);
        KeptAt(first.after, rest.after, SlotOf(chs[0]));
        assert forall i :: 1 <= i < |chs| ==> chs[i] == chs[1..][i - 1];
      }
    }
  }

  /** After the getters of a space succeed, all of that space's getter slots are filled. */
  lemma ReadsFill(kind: Kind, help: Helper, sl: Slots, sp: Space)
    requires Owned(kind, sl)
    ensures var st := Reads(kind, help, sl, sp);
      st.result.Success? ==> forall i :: 0 <= i < |Getters(sp)| ==> At(st.after, SlotOf(Getters(sp)[i])).Some?
  {
    ReadAllFills(kind, help, sl, Getters(sp));
  }

  /**
   * The `array` getter only reads the class's own slots: it never calls a
   * helper, changes nothing and returns the own tuple as the getters
   * present it.
   */
  lemma OwnArray(kind: Kind, help: Helper, sl: Slots)
    requires Owned(kind, sl)
    ensures ArrayStep(kind, help, sl) == Step(Success(Presented(kind, Own(kind, sl)).Array()), sl)
  {
    var chs := Getters(kind.Home());
    ReadAllFilled(kind, help, sl, chs);
    OwnValues(kind, sl);
  }

  /** The own slots, read through the class's getters, are the presented own tuple. */
  lemma OwnValues(kind: Kind, sl: Slots)
    requires Owned(kind, sl)
    ensures FilledValues(kind, sl, Getters(kind.Home())) == Presented(kind, Own(kind, sl)).Array()
  {
    StoreOwn(kind, sl);
    StoredValues(kind, sl, Own(kind, sl));
  }

  /** Storing the owned values back into the slots they came from changes nothing. */
  lemma StoreOwn(kind: Kind, sl: Slots)
    requires Owned(kind, sl)
    ensures Store(sl, Own(kind, sl)) == sl
  {
    match kind.Home()
    case CMYK => assert Own(kind, sl) == Cmyk(sl.c.value, sl.m.value, sl.y.value, sl.k.value);
    case HSL => assert Own(kind, sl) == Hsl(sl.h.value, sl.s.value, sl.l.value);
    case HSV => assert Own(kind, sl) == Hsv(sl.h.value, sl.s.value, sl.v.value);
    case HWB => assert Own(kind, sl) == Hwb(sl.h.value, sl.w.value, sl.k.value);
    case RGB => assert Own(kind, sl) == Rgb(sl.r.value, sl.g.value, sl.b.value);
  }

  /** FilledValues of three channels, written out. */
  lemma FilledThree(kind: Kind, sl: Slots, chs: seq<Channel>)
    requires |chs| == 3 && forall i :: 0 <= i < 3 ==> At(sl, SlotOf(chs[i])).Some?
    ensures FilledValues(kind, sl, chs) ==
      [Present(kind, chs[0], At(sl, SlotOf(chs[0])).value),
       Present(kind, chs[1], At(sl, SlotOf(chs[1])).value),
       Present(kind, chs[2], At(sl, SlotOf(chs[2])).value)]
  {
    var one := chs[1..];
    var two := one[1..];
    assert one[0] == chs[1] && two[0] == chs[2] && two[1..] == [];
    assert FilledValues(kind, sl, two) == [Present(kind, chs[2], At(sl, SlotOf(chs[2])).value)];
  }

  /** FilledValues of four channels, written out. */
  lemma FilledFour(kind: Kind, sl: Slots, chs: seq<Channel>)
    requires |chs| == 4 && forall i :: 0 <= i < 4 ==> At(sl, SlotOf(chs[i])).Some?
    ensures FilledValues(kind, sl, chs) ==
      [Present(kind, chs[0], At(sl, SlotOf(chs[0])).value),
       Present(kind, chs[1], At(sl, SlotOf(chs[1])).value),
       Present(kind, chs[2], At(sl, SlotOf(chs[2])).value),
       Present(kind, chs[3], At(sl, SlotOf(chs[3])).value)]
  {
    var rest := chs[1..];
    assert rest[0] == chs[1] && rest[1] == chs[2] && rest[2] == chs[3];
    FilledThree(kind, sl, rest);
  }

  /**
   * A tuple whose printed numbers are whole and non-negative (every tuple a
   * functional notation parses to) is presented unchanged by the getters.
   */
  lemma PrintablePresented(kind: Kind, x: Values)
    requires Printable(x)
    ensures Presented(kind, x) == x
  {
    var ns := PrintedNumbers(x);
    assert IsInt(ns[0]) && IsInt(ns[1]) && IsInt(ns[2]);
    match x
    case Cmyk(c, m, y, k) =>
      assert IsInt(ns[3]);
      Round2Fixed(c);
      Round2Fixed(m);
      Round2Fixed(y);
      Round2Fixed(k);
    case Hsl(h, s, l) =>
      RoundInt(h.Floor);
      Round2Fixed(s);
      Round2Fixed(l);
    case Hsv(h, s, v) =>
      RoundInt(h.Floor);
      Round2Fixed(s);
      Round2Fixed(v);
    case Hwb(h, w, k) =>
      RoundInt(h.Floor);
      Round2Fixed(w);
      Round2Fixed(k);
    case Rgb(r, g, b) =>
      RoundInt(r.Floor);
      RoundInt(g.Floor);
      RoundInt(b.Floor);
  }

  /**
   * `string` is the syntactic inverse of `_parse`: for a colour whose own
   * tuple prints as whole non-negative numbers, the `string` getter changes
   * nothing and parsing its text gives back the own tuple.
   */
  lemma StringRoundTrip(kind: Kind, help: Helper, sl: Slots)
    requires Owned(kind, sl) && Printable(Own(kind, sl))
    ensures StringStep(kind, help, sl).after == sl
    ensures StringStep(kind, help, sl).result.Success?
    ensures Parse(kind, StringStep(kind, help, sl).result.value) == Success(Own(kind, sl))
  {
    var x := Own(kind, sl);
    OwnArray(kind, help, sl);
    PrintablePresented(kind, x);
    assert Tuple(kind.Home(), x.Array()) == x;
    ShowParse(kind, x);
  }

  /**
   * The `hex` getter: the stored text once there is one; otherwise `red`,
   * `green` and `blue` are read and "#" followed by each as two lower-case
   * hex digits (`toString(16)` padded with "0") is stored and returned. The
   * older getters return raw slots, and the hex text of a fraction is not
   * produced (`Unrendered`).
   */
  function HexStep(kind: Kind, help: Helper, sl: Slots): (st: Step<string>)
    requires Owned(kind, sl)
    ensures Owned(kind, st.after)
    ensures st.result.Success? ==> st.after.hex == Some(st.result.value)
  {
    if sl.hex.Some? then Step(Success(sl.hex.value), sl)
    else
      var rgb := Reads(kind, help, sl, RGB);
      if rgb.result.Failure? then Step(Failure(rgb.result.error), rgb.after)
      else
        var text := HexOf(rgb.result.value);
        if text.Failure? then Step(Failure(text.error), rgb.after)
        else Step(text, rgb.after.(hex := Some(text.value)))
  }

  /**
   * The text `hex` builds from the three channels its getters return;
   * `Unrendered` for a channel that is not a whole number.
   */
  function HexOf(vs: seq<real>): (r: Result<string, Fault>)
    requires |vs| == 3
    ensures r.Success? <==> IsInt(vs[0]) && IsInt(vs[1]) && IsInt(vs[2])
    ensures r.Failure? ==> r.error == Unrendered
  {
    if IsInt(vs[0]) && IsInt(vs[1]) && IsInt(vs[2]) then Success(HexText(vs[0].Floor, vs[1].Floor, vs[2].Floor))
    else Failure(Unrendered)
  }

  /** Once `hex` has returned a text, it returns the same text again and changes nothing. */
  lemma HexOnce(kind: Kind, help: Helper, sl: Slots)
    requires Owned(kind, sl) && HexStep(kind, help, sl).result.Success?
    ensures var st := HexStep(kind, help, sl); HexStep(kind, help, st.after) == st
  {
  }

  /**
   * The newer getters round the RGB channels to whole numbers, so the newer
   * `hex` getter fails only when reading the channels throws.
   */
  lemma NewerHexRenders(kind: Kind, help: Helper, sl: Slots)
    requires Owned(kind, sl) && kind.Newer() && sl.hex.None?
    ensures HexStep(kind, help, sl).result.Success? <==> Reads(kind, help, sl, RGB).result.Success?
  {
    ReadAllWhole(kind, help, sl, Getters(RGB));
  }

  /** The newer getters of RGB channels, read in a row, return whole numbers. */
  lemma {:induction false} ReadAllWhole(kind: Kind, help: Helper, sl: Slots, chs: seq<Channel>)
    requires Owned(kind, sl) && kind.Newer() && forall i :: 0 <= i < |chs| ==> chs[i] in {Red, Green, Blue}
    ensures ReadAll(kind, help, sl, chs).result.Success? ==> AllInt(ReadAll(kind, help, sl, chs).result.value)
    decreases |chs|
  {
    if |chs| > 0 {
      var first := Read(kind, help, sl, chs[0]);
      RoundedWhole(kind, help, sl, chs[0]);
      if first.result.Success? {
        ReadAllWhole(kind, help, first.after, chs[1..]);
        var rest := ReadAll(kind, help, first.after, chs[1..]);
        if rest.result.Success? {
          var vs := ReadAll(kind, help, sl, chs).result.value;
          assert vs == [first.result.value] + rest.result.value;
          assert forall i :: 1 <= i < |vs| ==> vs[i] == rest.result.value[i - 1];
        }
      }
    }
  }

  /** Every number is whole. */
  predicate AllInt(vs: seq<real>) {
    forall i :: 0 <= i < |vs| ==> IsInt(vs[i])
  }


  /** A newer getter of an RGB channel returns a whole number. */
  lemma RoundedWhole(kind: Kind, help: Helper, sl: Slots, ch: Channel)
    requires Owned(kind, sl) && kind.Newer() && ch in {Red, Green, Blue}
    ensures Read(kind, help, sl, ch).result.Success? ==> IsInt(Read(kind, help, sl, ch).result.value)
  {
    if Read(kind, help, sl, ch).result.Success? {
      var n := Round(At(Read(kind, help, sl, ch).after, SlotOf(ch)).value);
      assert (n as real).Floor == n;
    }
  }

  /**
   * When the RGB getters return whole numbers in [0, 255], parsing the text
   * of `hex` with the RGB class gives back exactly those channels.
   */
  lemma HexParsesBack(kind: Kind, help: Helper, sl: Slots)
    requires Owned(kind, sl) && sl.hex.None?
    requires var rgb := Reads(kind, help, sl, RGB);
      rgb.result.Success? && Whole(rgb.result.value)
    ensures HexStep(kind, help, sl).result.Success?
    ensures var vs := Reads(kind, help, sl, RGB).result.value;
      Parse(OldRgb, HexStep(kind, help, sl).result.value) == Success(Rgb(vs[0], vs[1], vs[2]))
  {
    var rgb := Reads(kind, help, sl, RGB);
    HexOfParses(rgb.result.value);
    HexFromReads(kind, help, sl);
  }

  /** With no stored text, `hex` is the text of what the RGB getters return. */
  lemma HexFromReads(kind: Kind, help: Helper, sl: Slots)
    requires Owned(kind, sl) && sl.hex.None?
    ensures var rgb := Reads(kind, help, sl, RGB);
      rgb.result.Success? ==> HexStep(kind, help, sl).result == HexOf(rgb.result.value)
  {
  }

  /** The hex text of three whole channels in [0, 255] parses back to them. */
  lemma HexOfParses(vs: seq<real>)
    requires Whole(vs)
    ensures HexOf(vs).Success? && Parse(OldRgb, HexOf(vs).value) == Success(Rgb(vs[0], vs[1], vs[2]))
  {
    assert IsInt(vs[0]) && IsInt(vs[1]) && IsInt(vs[2]);
    HexRoundTrip(vs[0].Floor, vs[1].Floor, vs[2].Floor);
  }

  /** Three whole numbers in [0, 255]. */
  predicate Whole(vs: seq<real>) {
    |vs| == 3 && forall i :: 0 <= i < 3 ==> IsInt(vs[i]) && 0.0 <= vs[i] <= 255.0
  }

  /**
   * `_s` is shared: after `hue`, `lightness` or `brightness` has filled an
   * empty slot, `saturation` returns the saturation of the tuple just
   * written, the HSL one after `hue` or `lightness` and the HSV one after
   * `brightness`, whichever tuple wrote `_s` before.
   */
  lemma SharedSaturation(kind: Kind, help: Helper, sl: Slots, ch: Channel)
    requires Owned(kind, sl) && ch in {Hue, Lightness, Brightness} && At(sl, SlotOf(ch)).None?
    requires Read(kind, help, sl, ch).result.Success?
    ensures var x := help(Own(kind, sl), SpaceOfChannel(ch));
      x.Success? && (x.value.Hsl? || x.value.Hsv?) &&
      Read(kind, help, Read(kind, help, sl, ch).after, Saturation).result == Success(Present(kind, Saturation, x.value.s))
  {
    ReadEmpty(kind, help, sl, ch);
  }

  /** CMYK and HWB are reached through RGB from every home space other than those two. */
  lemma ConvertViaRgb(kind: Kind, x: Values, sp: Space)
    requires x.SpaceOf() == kind.Home() && kind.Home() !in {CMYK, HWB} && sp in {CMYK, HWB}
    ensures ToRgb(kind, x).Failure? ==> Convert(kind, x, sp) == Failure(ToRgb(kind, x).error)
    ensures ToRgb(kind, x).Success? ==> Convert(kind, x, sp) == FromRgb(kind.Newer(), ToRgb(kind, x).value, sp)
  {
  }

  /**
   * CMYK key and HWB blackness agree for every class whose own space is
   * neither CMYK nor HWB: both helpers go through `_rgb`, and the key
   * 1 - max / 255 is the blackness (rounded alike by the older kernel). So
   * `_k` holds the same number whichever of `cyan` and `blackness` fills it.
   */
  lemma SharedKey(kind: Kind, x: Values)
    requires x.SpaceOf() == kind.Home() && kind.Home() !in {CMYK, HWB}
    requires Convert(kind, x, HWB).Success?
    ensures Convert(kind, x, CMYK).Success?
    ensures Convert(kind, x, CMYK).value.k == Convert(kind, x, HWB).value.k
  {
    ConvertViaRgb(kind, x, HWB);
    ConvertViaRgb(kind, x, CMYK);
    var c := ToRgb(kind, x).value;
    if kind.Newer() {
      RgbToHwbChannels(c.r, c.g, c.b);
    } else {
      LegacyKeyIsBlackness(c.r, c.g, c.b);
    }
  }

  /**
   * The HWB classes keep their blackness in the `_k` slot that the CMYK
   * getters share: reading `cyan` while that slot is empty stores the CMYK
   * tuple, whose key then replaces the blackness `blackness` returns.
   */
  lemma CyanOverwritesBlackness(kind: Kind, help: Helper, sl: Slots)
    requires Owned(kind, sl) && kind.Home() == HWB && sl.c.None?
    requires help(Own(kind, sl), CMYK).Success?
    ensures var y := help(Own(kind, sl), CMYK).value;
      var st := Read(kind, help, sl, Cyan);
      y.Cmyk? && st.after.k == Some(y.k) &&
      Read(kind, help, st.after, Blackness).result == Success(Present(kind, Blackness, y.k))
  {
    ReadFills(kind, help, sl, Cyan);
    var y := help(Own(kind, sl), CMYK).value;
    ReadFilled(kind, help, Store(sl, y), Blackness);
  }

  /**
   * hwb(0, 80%, 80%) is the grey rgb(127.5, 127.5, 127.5), whose CMYK key
   * is 0.5: after `cyan`, the newer class's `blackness` says 0.5, not 0.8.
   */
  lemma GreyHwbToCmyk()
    ensures Helpers(NewHwb)(Hwb(0.0, 0.8, 0.8), CMYK) == Success(Cmyk(0.0, 0.0, 0.0, 0.5))
    ensures Present(NewHwb, Blackness, 0.5) == 0.5
  {
    assert HwbToHsv(0.0, 0.8, 0.8) == Hsv(0.0, 0.0, 0.5) by {
      ScaledPair(0.8, 0.8);
    }
    assert Sector(0.0) == 0;
    assert HsvToRgb(0.0, 0.0, 0.5) == Success(Rgb(127.5, 127.5, 127.5));
    assert Max3(0.5, 0.5, 0.5) == 0.5;
    assert RgbToCmyk(127.5, 127.5, 127.5) == Cmyk(0.0, 0.0, 0.0, 0.5);
    assert Convert(NewHwb, Hwb(0.0, 0.8, 0.8), CMYK) == Success(Cmyk(0.0, 0.0, 0.0, 0.5));
    Round2Hundredths(50);
  }

  /** cmyk(0%, 100%, 100%, 0%) is red: rgb(255, 0, 0), hsl(0, 100%, 50%) and hsv(0, 100%, 100%). */
  lemma CmykRedFixture()
    ensures Convert(OldCmyk, Cmyk(0.0, 1.0, 1.0, 0.0), RGB) == Success(Rgb(255.0, 0.0, 0.0))
    ensures Convert(OldCmyk, Cmyk(0.0, 1.0, 1.0, 0.0), HSL) == Success(Hsl(0.0, 1.0, 0.5))
    ensures Convert(OldCmyk, Cmyk(0.0, 1.0, 1.0, 0.0), HSV) == Success(Hsv(0.0, 1.0, 1.0))
  {
    assert CmykToRgb(0.0, 1.0, 1.0, 0.0) == Rgb(255.0, 0.0, 0.0);
    Round2Hundredths(100);
    Round2Hundredths(50);
    assert LegacyRgbToHsl(255.0, 0.0, 0.0) == Hsl(0.0, 1.0, 0.5);
    assert LegacyRgbToHsv(255.0, 0.0, 0.0) == Hsv(0.0, 1.0, 1.0);
  }

  /** The older HSV class: hsv(0, 0%, 100%) is white and hsv(0, 0%, 0%) black. */
  lemma OldHsvFixtures()
    ensures Convert(OldHsv, Hsv(0.0, 0.0, 1.0), RGB) == Success(Rgb(255.0, 255.0, 255.0))
    ensures Convert(OldHsv, Hsv(0.0, 0.0, 0.0), RGB) == Success(Rgb(0.0, 0.0, 0.0))
  {
    assert Sector(0.0) == 0;
    assert HsvToRgb(0.0, 0.0, 1.0) == Success(Rgb(255.0, 255.0, 255.0));
    assert HsvToRgb(0.0, 0.0, 0.0) == Success(Rgb(0.0, 0.0, 0.0));
  }

  /** The older HWB class: hwb(0, 100%, 0%) is white, hwb(0, 0%, 100%) black and hwb(0, 0%, 0%) red. */
  lemma OldHwbFixtures()
    ensures Convert(OldHwb, Hwb(0.0, 1.0, 0.0), RGB) == Success(Rgb(255.0, 255.0, 255.0))
    ensures Convert(OldHwb, Hwb(0.0, 0.0, 1.0), RGB) == Success(Rgb(0.0, 0.0, 0.0))
    ensures Convert(OldHwb, Hwb(0.0, 0.0, 0.0), RGB) == Success(Rgb(255.0, 0.0, 0.0))
  {
    assert Sector(0.0) == 0;
    assert HwbToHsv(0.0, 1.0, 0.0) == Hsv(0.0, 0.0, 1.0);
    assert HwbToHsv(0.0, 0.0, 1.0) == Hsv(0.0, 0.0, 0.0);
    assert HwbToHsv(0.0, 0.0, 0.0) == Hsv(0.0, 1.0, 1.0);
    assert HsvToRgb(0.0, 0.0, 1.0) == Success(Rgb(255.0, 255.0, 255.0));
    assert HsvToRgb(0.0, 1.0, 1.0) == Success(Rgb(255.0, 0.0, 0.0));
  }

  /**
   * The object constructors: the HSL class and the newer HSV class store
   * hue 0 when the saturation is 0, and otherwise bring the hue into
   * [0, 360] by the remainder rule; every other class stores its channels
   * as given.
   */
  function Normalize(kind: Kind, x: Values): (y: Values)
    requires x.SpaceOf() == kind.Home()
    ensures y.SpaceOf() == kind.Home()
    ensures kind !in {NewHsl, NewHsv} ==> y == x
    ensures kind in {NewHsl, NewHsv} ==>
      y.s == x.s && 0.0 <= y.h <= 360.0 &&
      (x.s == 0.0 ==> y.h == 0.0) && (x.s != 0.0 ==> IsInt((x.h - y.h) / 360.0))
    ensures kind == NewHsl ==> y.l == x.l
    ensures kind == NewHsv ==> y.v == x.v
  {
    match kind
    case NewHsl => if x.s == 0.0 then Hsl(0.0, 0.0, x.l) else Hsl(NormalizeHue(x.h), x.s, x.l)
    case NewHsv => if x.s == 0.0 then Hsv(0.0, 0.0, x.v) else Hsv(NormalizeHue(x.h), x.s, x.v)
    case _ => x
  }

  /** The slots of a colour built from an object: the normalised own tuple, nothing else. */
  function Initial(kind: Kind, x: Values): (sl: Slots)
    requires x.SpaceOf() == kind.Home()
    ensures Owned(kind, sl) && Own(kind, sl) == Normalize(kind, x)
    ensures forall t :: t !in SlotsOf(kind.Home()) ==> At(sl, t).None?
    ensures sl.hex.None?
  {
    Store(Empty, Normalize(kind, x))
  }

  /**
   * The slots of a colour built from a string: the tuple `_parse` stores,
   * with no normalisation, or the error it throws.
   */
  function FromText(kind: Kind, text: string): (r: Result<Slots, Fault>)
    ensures r.Success? <==> Parse(kind, text).Success?
    ensures r.Failure? ==> r.error == Parse(kind, text).error
    ensures r.Success? ==> Owned(kind, r.value) && Own(kind, r.value) == Parse(kind, text).value
  {
    var x :- Parse(kind, text);
    Success(Store(Empty, x))
  }

  /**
   * A colour a conversion or a transform returns: the receiver itself; a
   * new colour of `space` built from `values`; or (a transform) a new
   * colour of the tuple's own space converted by its `space` conversion.
   */
  datatype Outcome = Receiver | Rebuilt(values: Values, space: Space) | Transformed(values: Values, space: Space)

  /**
   * The conversions `cmyk()`, `hsl()`, `hsv()`, `hwb()` and `rgb()`: the
   * receiver for its own space (the newer HSV and HWB classes instead build
   * a new colour from their raw own slots), and otherwise a new colour of
   * the target space from the target's getters, read in order.
   */
  function ToStep(kind: Kind, help: Helper, sl: Slots, target: Space): (st: Step<Outcome>)
    requires Owned(kind, sl)
    ensures Owned(kind, st.after)
    ensures st.result.Success? && st.result.value.Rebuilt? ==> st.result.value.space == target
  {
    if target == kind.Home() then
      if kind in {NewHsv, NewHwb} then Step(Success(Rebuilt(Own(kind, sl), target)), sl)
      else Step(Success(Receiver), sl)
    else
      var st := Reads(kind, help, sl, target);
      if st.result.Failure? then Step(Failure(st.result.error), st.after)
      else Step(Success(Rebuilt(Tuple(target, st.result.value), target)), st.after)
  }

  /**
   * The conversions as evidently intended: the receiver's tuple in the
   * target space, computed once by the class's helper, stored like a getter
   * stores it and presented as the getters present it, with no stale
   * shared slot read in between.
   */
  function IntendedStep(kind: Kind, help: Helper, sl: Slots, target: Space): (st: Step<Outcome>)
    requires Owned(kind, sl)
    ensures Owned(kind, st.after)
    ensures target != kind.Home() ==> (st.result.Success? <==> help(Own(kind, sl), target).Success?)
    ensures st.result.Success? && st.result.value.Rebuilt? ==> st.result.value.space == target
  {
    if target == kind.Home() then ToStep(kind, help, sl, target)
    else
      match help(Own(kind, sl), target)
      case Failure(e) => Step(Failure(e), sl)
      case Success(x) =>
        StoreOwned(kind, sl, x);
        Step(Success(Rebuilt(Presented(kind, x), target)), Store(sl, x))
  }

  /**
   * After the intended conversion the target's getters change nothing and
   * return exactly the channels of the colour it built.
   */
  lemma IntendedIsFreshTuple(kind: Kind, help: Helper, sl: Slots, target: Space)
    requires Owned(kind, sl) && target != kind.Home()
    requires IntendedStep(kind, help, sl, target).result.Success?
    ensures var st := IntendedStep(kind, help, sl, target);
      Reads(kind, help, st.after, target) == Step(Success(st.result.value.values.Array()), st.after)
  {
    var x := help(Own(kind, sl), target).value;
    StoredArray(kind, help, sl, x);
  }

  /**
   * Where nothing stale can be read, the conversion as written is the
   * intended one: `rgb()` on a colour whose RGB slots are still empty
   * fills them once from `_rgb` and reads them back.
   */
  lemma IntendedAgreesOnFreshRgb(kind: Kind, help: Helper, sl: Slots)
    requires Owned(kind, sl) && kind.Home() != RGB && sl.r.None?
    ensures ToStep(kind, help, sl, RGB) == IntendedStep(kind, help, sl, RGB)
  {
    var t := help(Own(kind, sl), RGB);
    ReadEmpty(kind, help, sl, Red);
    if t.Success? {
      FreshRgbReads(kind, help, sl, t.value);
      TupleArray(Presented(kind, t.value));
    } else {
      assert Getters(RGB)[0] == Red;
    }
  }

  /** A plain object given to a constructor: the keys present, each with its number. */
  type Fields = map<string, real>

  /**
   * The HSL class's constructor on an object: a saturation of 0 gives the
   * grey (0, 0, lightness); otherwise the hue is normalised and the three
   * keys are stored. A key that is not given reads as undefined, which turns
   * the hue into NaN or leaves a slot undefined: `NonFinite`.
   */
  function HslFromFields(o: Fields): (r: Result<Slots, Fault>)
    ensures r.Success? <==>
      "saturation" in o && "lightness" in o && (o["saturation"] == 0.0 || "hue" in o)
    ensures r.Failure? ==> r.error == NonFinite
    ensures r.Success? && "hue" in o ==>
      r.value == Initial(NewHsl, Hsl(o["hue"], o["saturation"], o["lightness"]))
    ensures r.Success? && "hue" !in o ==> r.value == Initial(NewHsl, Hsl(0.0, 0.0, o["lightness"]))
  {
    if "saturation" in o && o["saturation"] == 0.0 then
      if "lightness" in o then Success(Store(Empty, Hsl(0.0, 0.0, o["lightness"])))
      else Failure(NonFinite)
    else if "hue" in o && "saturation" in o && "lightness" in o then
      Success(Initial(NewHsl, Hsl(o["hue"], o["saturation"], o["lightness"])))
    else Failure(NonFinite)
  }

  /** The object the older classes' `hsl()` pass on: keys `h`, `s` and `l`. */
  function OlderHslFields(x: Values): (o: Fields)
    requires x.Hsl?
    ensures "saturation" !in o && "hue" !in o && "lightness" !in o
  {
    map["h" := x.h, "s" := x.s, "l" := x.l]
  }

  /** The object with the keys the HSL constructor reads. */
  function HslFields(x: Values): (o: Fields)
    requires x.Hsl?
    ensures o.Keys == {"hue", "saturation", "lightness"}
    ensures o["hue"] == x.h && o["saturation"] == x.s && o["lightness"] == x.l
  {
    map["hue" := x.h, "saturation" := x.s, "lightness" := x.l]
  }

  /**
   * As written, whenever an older class's `hsl()` gets its tuple, the HSL
   * constructor reads none of the keys it is given and the new colour has a
   * NaN hue.
   */
  lemma OlderHslUnread(kind: Kind, help: Helper, sl: Slots)
    requires Owned(kind, sl) && !kind.Newer()
    ensures var st := ToStep(kind, help, sl, HSL);
      st.result.Success? ==>
        st.result.value.Rebuilt? && st.result.value.values.Hsl? &&
        HslFromFields(OlderHslFields(st.result.value.values)) == Failure(NonFinite)
  {
    var st := ToStep(kind, help, sl, HSL);
    if st.result.Success? {
      assert kind.Home() != HSL;
      var x := st.result.value.values;
      assert x.Hsl?;
      var o := OlderHslFields(x);
      assert "saturation" !in o;
    }
  }

  /**
   * As intended, the same tuple under the keys the HSL constructor reads
   * builds the HSL colour the conversion's outcome stands for: its own slots
   * hold the tuple, normalised as the constructor normalises it.
   */
  lemma OlderHslIntended(kind: Kind, help: Helper, sl: Slots)
    requires Owned(kind, sl) && !kind.Newer()
    ensures var st := ToStep(kind, help, sl, HSL);
      st.result.Success? ==>
        st.result.value.Rebuilt? && st.result.value.values.Hsl? &&
        HslFromFields(HslFields(st.result.value.values)) ==
          Success(Initial(NewHsl, st.result.value.values))
  {
    var st := ToStep(kind, help, sl, HSL);
    if st.result.Success? {
      assert kind.Home() != HSL;
      var x := st.result.value.values;
      assert x.Hsl?;
      var o := HslFields(x);
      if x.s == 0.0 {
        assert Normalize(NewHsl, x) == Hsl(0.0, 0.0, x.l);
      }
    }
  }

  /** The reads behind `rgb()` from empty RGB slots: the helper's tuple, stored and presented. */
  lemma FreshRgbReads(kind: Kind, help: Helper, sl: Slots, x: Values)
    requires Owned(kind, sl) && kind.Home() != RGB && sl.r.None? && help(Own(kind, sl), RGB) == Success(x)
    ensures Reads(kind, help, sl, RGB) == Step(Success(Presented(kind, x).Array()), Store(sl, x))
  {
    assert x.SpaceOf() == RGB;
    var stored := Store(sl, x);
    ReadEmpty(kind, help, sl, Red);
    StoredArray(kind, help, sl, x);
    assert At(stored, SlotOf(Red)) == Some(x.r);
    ReadFilled(kind, help, stored, Red);
    ReadAllSameHead(kind, help, sl, stored, Getters(RGB));
  }

  /** Two states whose first read agrees, value and state after, read the rest alike. */
  lemma ReadAllSameHead(kind: Kind, help: Helper, sl: Slots, sl2: Slots, chs: seq<Channel>)
    requires Owned(kind, sl) && Owned(kind, sl2) && |chs| > 0 && forall i :: 0 <= i < |chs| ==> HasGetter(kind, chs[i])
    requires Read(kind, help, sl, chs[0]) == Read(kind, help, sl2, chs[0])
    ensures ReadAll(kind, help, sl, chs) == ReadAll(kind, help, sl2, chs)
  {
  }

  /** Getters of a tuple just stored change nothing and return it as presented. */
  lemma StoredArray(kind: Kind, help: Helper, sl: Slots, x: Values)
    requires Owned(kind, sl)
    ensures Owned(kind, Store(sl, x))
    ensures Reads(kind, help, Store(sl, x), x.SpaceOf()) == Step(Success(Presented(kind, x).Array()), Store(sl, x))
  {
    var stored := Store(sl, x);
    StoreOwned(kind, sl, x);
    var chs := Getters(x.SpaceOf());
    StoredValues(kind, sl, x);
    ReadAllFilled(kind, help, stored, chs);
  }

  /** The getters of a space find the slots of a tuple just stored filled with its channels, as presented. */
  lemma StoredValues(kind: Kind, sl: Slots, x: Values)
    ensures var chs := Getters(x.SpaceOf());
      (forall i :: 0 <= i < |chs| ==> At(Store(sl, x), SlotOf(chs[i])).Some?) &&
      FilledValues(kind, Store(sl, x), chs) == Presented(kind, x).Array()
  {
    match x
    case Cmyk(c, m, y, k) => StoredCmyk(kind, sl, c, m, y, k);
    case Hsl(h, s, l) => StoredHsl(kind, sl, h, s, l);
    case Hsv(h, s, v) => StoredHsv(kind, sl, h, s, v);
    case Hwb(h, w, k) => StoredHwb(kind, sl, h, w, k);
    case Rgb(r, g, b) => StoredRgb(kind, sl, r, g, b);
  }

  lemma StoredCmyk(kind: Kind, sl: Slots, c: real, m: real, y: real, k: real)
    ensures var x := Cmyk(c, m, y, k);
      var chs := Getters(x.SpaceOf());
      (forall i :: 0 <= i < |chs| ==> At(Store(sl, x), SlotOf(chs[i])).Some?) &&
      FilledValues(kind, Store(sl, x), chs) == Presented(kind, x).Array()
  {
    var x := Cmyk(c, m, y, k);
    var stored := Store(sl, x);
    var chs := Getters(x.SpaceOf());
    assert chs == [Cyan, Magenta, Yellow, Blackness];
    assert stored.c == Some(c) && stored.m == Some(m) && stored.y == Some(y) && stored.k == Some(k);
    FilledFour(kind, stored, chs);
  }

  lemma StoredHsl(kind: Kind, sl: Slots, h: real, s: real, l: real)
    ensures var x := Hsl(h, s, l);
      var chs := Getters(x.SpaceOf());
      (forall i :: 0 <= i < |chs| ==> At(Store(sl, x), SlotOf(chs[i])).Some?) &&
      FilledValues(kind, Store(sl, x), chs) == Presented(kind, x).Array()
  {
    var x := Hsl(h, s, l);
    var stored := Store(sl, x);
    var chs := Getters(x.SpaceOf());
    assert chs == [Hue, Saturation, Lightness];
    assert stored.h == Some(h) && stored.s == Some(s) && stored.l == Some(l);
    FilledThree(kind, stored, chs);
  }

  lemma StoredHsv(kind: Kind, sl: Slots, h: real, s: real, v: real)
    ensures var x := Hsv(h, s, v);
      var chs := Getters(x.SpaceOf());
      (forall i :: 0 <= i < |chs| ==> At(Store(sl, x), SlotOf(chs[i])).Some?) &&
      FilledValues(kind, Store(sl, x), chs) == Presented(kind, x).Array()
  {
    var x := Hsv(h, s, v);
    var stored := Store(sl, x);
    var chs := Getters(x.SpaceOf());
    assert chs == [Hue, Saturation, Brightness];
    assert stored.h == Some(h) && stored.s == Some(s) && stored.v == Some(v);
    FilledThree(kind, stored, chs);
  }

  lemma StoredHwb(kind: Kind, sl: Slots, h: real, w: real, k: real)
    ensures var x := Hwb(h, w, k);
      var chs := Getters(x.SpaceOf());
      (forall i :: 0 <= i < |chs| ==> At(Store(sl, x), SlotOf(chs[i])).Some?) &&
      FilledValues(kind, Store(sl, x), chs) == Presented(kind, x).Array()
  {
    var x := Hwb(h, w, k);
    var stored := Store(sl, x);
    var chs := Getters(x.SpaceOf());
    assert chs == [Hue, Whiteness, Blackness];
    assert stored.h == Some(h) && stored.w == Some(w) && stored.k == Some(k);
    FilledThree(kind, stored, chs);
  }

  lemma StoredRgb(kind: Kind, sl: Slots, r: real, g: real, b: real)
    ensures var x := Rgb(r, g, b);
      var chs := Getters(x.SpaceOf());
      (forall i :: 0 <= i < |chs| ==> At(Store(sl, x), SlotOf(chs[i])).Some?) &&
      FilledValues(kind, Store(sl, x), chs) == Presented(kind, x).Array()
  {
    var x := Rgb(r, g, b);
    var stored := Store(sl, x);
    var chs := Getters(x.SpaceOf());
    assert chs == [Red, Green, Blue];
    assert stored.r == Some(r) && stored.g == Some(g) && stored.b == Some(b);
    FilledThree(kind, stored, chs);
  }

  /** Storing a tuple keeps the own slots filled. */
  lemma StoreOwned(kind: Kind, sl: Slots, x: Values)
    requires Owned(kind, sl)
    ensures Owned(kind, Store(sl, x))
  {
  }

  /** A tuple is rebuilt from its array. */
  lemma TupleArray(x: Values)
    ensures Tuple(x.SpaceOf(), x.Array()) == x
  {
  }

  /** Three successful reads in a row, as ReadAll performs them. */
  lemma ReadAllThree(kind: Kind, help: Helper, sl: Slots, c0: Channel, c1: Channel, c2: Channel)
    requires Owned(kind, sl) && HasGetter(kind, c0) && HasGetter(kind, c1) && HasGetter(kind, c2)
    ensures var a := Read(kind, help, sl, c0);
      a.result.Success? ==>
      var b := Read(kind, help, a.after, c1);
      b.result.Success? ==>
      var c := Read(kind, help, b.after, c2);
      c.result.Success? ==>
      ReadAll(kind, help, sl, [c0, c1, c2]) == Step(Success([a.result.value, b.result.value, c.result.value]), c.after)
  {
    var a := Read(kind, help, sl, c0);
    if a.result.Success? {
      ReadAllTwo(kind, help, a.after, c1, c2);
      var b := Read(kind, help, a.after, c1);
      if b.result.Success? {
        var c := Read(kind, help, b.after, c2);
        if c.result.Success? {
          assert [c0, c1, c2][0] == c0 && [c0, c1, c2][1..] == [c1, c2];
          ReadAllStep(kind, help, sl, [c0, c1, c2], a.result.value, a.after, [b.result.value, c.result.value], c.after);
          assert [a.result.value] + [b.result.value, c.result.value] == [a.result.value, b.result.value, c.result.value];
        }
      }
    }
  }

  /** ReadAllThree for two getters. */
  lemma ReadAllTwo(kind: Kind, help: Helper, sl: Slots, c1: Channel, c2: Channel)
    requires Owned(kind, sl) && HasGetter(kind, c1) && HasGetter(kind, c2)
    ensures var b := Read(kind, help, sl, c1);
      b.result.Success? ==>
      var c := Read(kind, help, b.after, c2);
      c.result.Success? ==>
      ReadAll(kind, help, sl, [c1, c2]) == Step(Success([b.result.value, c.result.value]), c.after)
  {
    var b := Read(kind, help, sl, c1);
    if b.result.Success? {
      var c := Read(kind, help, b.after, c2);
      if c.result.Success? {
        assert [c2][0] == c2 && [c2][1..] == [];
        ReadAllStep(kind, help, b.after, [c2], c.result.value, c.after, [], c.after);
        assert [c.result.value] + [] == [c.result.value];
        assert [c1, c2][0] == c1 && [c1, c2][1..] == [c2];
        ReadAllStep(kind, help, sl, [c1, c2], b.result.value, b.after, [c.result.value], c.after);
        assert [b.result.value] + [c.result.value] == [b.result.value, c.result.value];
      }
    }
  }


  /** One successful read followed by the successful reads of the rest is a successful ReadAll. */
  lemma ReadAllStep(kind: Kind, help: Helper, sl: Slots, chs: seq<Channel>, v: real, mid: Slots, vs: seq<real>, out: Slots)
    requires Owned(kind, sl) && |chs| > 0 && forall i :: 0 <= i < |chs| ==> HasGetter(kind, chs[i])
    requires Read(kind, help, sl, chs[0]) == Step(Success(v), mid)
    requires ReadAll(kind, help, mid, chs[1..]) == Step(Success(vs), out)
    ensures ReadAll(kind, help, sl, chs) == Step(Success([v] + vs), out)
  {
  }



  /**
   * Part way through a run of getters: the whole run is what has been read
   * so far followed by the rest of the run from the current slots.
   */
  predicate Resumes(kind: Kind, help: Helper, whole: Step<seq<real>>, sl: Slots, chs: seq<Channel>, i: nat, acc: seq<real>)
    requires Owned(kind, sl) && i <= |chs| && forall j :: 0 <= j < |chs| ==> HasGetter(kind, chs[j])
  {
    var rest := ReadAll(kind, help, sl, chs[i..]);
    whole == if rest.result.Success? then Step(Success(acc + rest.result.value), rest.after) else rest
  }

  /** Before the first getter, the whole run resumes from the start. */
  lemma ResumeStart(kind: Kind, help: Helper, sl: Slots, chs: seq<Channel>)
    requires Owned(kind, sl) && forall j :: 0 <= j < |chs| ==> HasGetter(kind, chs[j])
    ensures Resumes(kind, help, ReadAll(kind, help, sl, chs), sl, chs, 0, [])
  {
    assert chs[0..] == chs;
    var whole := ReadAll(kind, help, sl, chs);
    if whole.result.Success? {
      assert [] + whole.result.value == whole.result.value;
    }
  }

  /** One more getter: a failure ends the whole run with it, a success extends what has been read. */
  lemma ResumeNext(kind: Kind, help: Helper, whole: Step<seq<real>>, sl: Slots, chs: seq<Channel>, i: nat, acc: seq<real>)
    requires Owned(kind, sl) && i < |chs| && forall j :: 0 <= j < |chs| ==> HasGetter(kind, chs[j])
    requires Resumes(kind, help, whole, sl, chs, i, acc)
    ensures var x := Read(kind, help, sl, chs[i]);
      (x.result.Failure? ==> whole == Step(Failure(x.result.error), x.after)) &&
      (x.result.Success? ==> Resumes(kind, help, whole, x.after, chs, i + 1, acc + [x.result.value]))
  {
    assert chs[i..][0] == chs[i] && chs[i..][1..] == chs[i + 1..];
    var x := Read(kind, help, sl, chs[i]);
    if x.result.Success? {
      var rest := ReadAll(kind, help, x.after, chs[i + 1..]);
      if rest.result.Success? {
        assert acc + ([x.result.value] + rest.result.value) == (acc + [x.result.value]) + rest.result.value;
      }
    }
  }

  /** After the last getter, the whole run is what has been read. */
  lemma ResumeEnd(kind: Kind, help: Helper, whole: Step<seq<real>>, sl: Slots, chs: seq<Channel>, acc: seq<real>)
    requires Owned(kind, sl) && forall j :: 0 <= j < |chs| ==> HasGetter(kind, chs[j])
    requires Resumes(kind, help, whole, sl, chs, |chs|, acc)
    ensures whole == Step(Success(acc), sl)
  {
    assert chs[|chs|..] == [];
    assert acc + [] == acc;
  }

  /** Three reads in a row succeed only if each of them does. */
  lemma ReadAllThreeNeeds(kind: Kind, help: Helper, sl: Slots, c0: Channel, c1: Channel, c2: Channel)
    requires Owned(kind, sl) && HasGetter(kind, c0) && HasGetter(kind, c1) && HasGetter(kind, c2)
    ensures var a := Read(kind, help, sl, c0);
      ReadAll(kind, help, sl, [c0, c1, c2]).result.Success? ==>
      a.result.Success? &&
      var b := Read(kind, help, a.after, c1);
      b.result.Success? &&
      Read(kind, help, b.after, c2).result.Success?
  {
    var chs := [c0, c1, c2];
    assert chs[0] == c0 && chs[1..] == [c1, c2];
    if ReadAll(kind, help, sl, chs).result.Success? {
      ReadAllNeeds(kind, help, sl, chs);
      var a := Read(kind, help, sl, c0);
      assert a.result.Success? && ReadAll(kind, help, a.after, [c1, c2]).result.Success?;
      ReadAllTwoNeeds(kind, help, a.after, c1, c2);
    }
  }

  /** ReadAllThreeNeeds for two getters. */
  lemma ReadAllTwoNeeds(kind: Kind, help: Helper, sl: Slots, c1: Channel, c2: Channel)
    requires Owned(kind, sl) && HasGetter(kind, c1) && HasGetter(kind, c2)
    ensures var b := Read(kind, help, sl, c1);
      ReadAll(kind, help, sl, [c1, c2]).result.Success? ==>
      b.result.Success? && Read(kind, help, b.after, c2).result.Success?
  {
    assert [c1, c2][0] == c1 && [c1, c2][1..] == [c2];
    assert [c2][0] == c2;
    var b := Read(kind, help, sl, c1);
    ReadAllNeeds(kind, help, sl, [c1, c2]);
    ReadAllNeeds(kind, help, b.after, [c2]);
  }

  /** A run of getters succeeds only if its first getter and the rest of the run do. */
  lemma ReadAllNeeds(kind: Kind, help: Helper, sl: Slots, chs: seq<Channel>)
    requires Owned(kind, sl) && |chs| > 0 && forall i :: 0 <= i < |chs| ==> HasGetter(kind, chs[i])
    ensures var first := Read(kind, help, sl, chs[0]);
      ReadAll(kind, help, sl, chs).result.Success? ==>
      first.result.Success? && ReadAll(kind, help, first.after, chs[1..]).result.Success?
  {
  }

  /** ReadAll of a non-empty list: the first getter, then the rest from the slots it leaves. */
  lemma ReadAllCons(kind: Kind, help: Helper, sl: Slots, chs: seq<Channel>)
    requires Owned(kind, sl) && |chs| > 0 && forall i :: 0 <= i < |chs| ==> HasGetter(kind, chs[i])
    ensures var first := Read(kind, help, sl, chs[0]);
      first.result.Success? ==>
      var rest := ReadAll(kind, help, first.after, chs[1..]);
      rest.result.Success? ==>
      ReadAll(kind, help, sl, chs) == Step(Success([first.result.value] + rest.result.value), rest.after)
  {
  }

  /**
   * As written, `hsv()` of hsl(0, 50%, 75%) reads `saturation` while `_s`
   * still holds the HSL saturation 0.5, and only then `brightness`, which
   * writes the HSV tuple: the new HSV colour gets saturation 0.5, where the
   * colour's HSV saturation is 2/7, presented as 0.29.
   */
  lemma StaleSaturation()
    ensures ToStep(NewHsl, Helpers(NewHsl), Initial(NewHsl, Hsl(0.0, 0.5, 0.75)), HSV).result == Success(Rebuilt(Hsv(0.0, 0.5, 0.88), HSV))
  {
    var sl := Initial(NewHsl, Hsl(0.0, 0.5, 0.75));
    StaleReads();
    ReadAllThree(NewHsl, Helpers(NewHsl), sl, Hue, Saturation, Brightness);
    assert Getters(HSV) == [Hue, Saturation, Brightness];
  }

  /** The three getters `hsv()` reads on hsl(0, 50%, 75%), one by one. */
  lemma StaleReads()
    ensures var sl := Initial(NewHsl, Hsl(0.0, 0.5, 0.75));
      Read(NewHsl, Helpers(NewHsl), sl, Hue) == Step(Success(0.0), sl) &&
      Read(NewHsl, Helpers(NewHsl), sl, Saturation) == Step(Success(0.5), sl) &&
      Read(NewHsl, Helpers(NewHsl), sl, Brightness).result == Success(0.88)
  {
    var x := Hsl(0.0, 0.5, 0.75);
    var sl := Initial(NewHsl, x);
    var help := Helpers(NewHsl);
    assert Own(NewHsl, sl) == x;
    assert sl.h == Some(0.0) && sl.s == Some(0.5) && sl.v.None?;
    RoundInt(0);
    Round2Hundredths(50);
    ReadFilled(NewHsl, help, sl, Hue);
    ReadFilled(NewHsl, help, sl, Saturation);
    HslToHsvExample();
    assert help(x, HSV) == Success(Hsv(0.0, 2.0 / 7.0, 0.875));
    ReadFills(NewHsl, help, sl, Brightness);
  }

  /** The intended `hsv()` of hsl(0, 50%, 75%): saturation 2/7, presented as 0.29. */
  lemma IntendedSaturation()
    ensures IntendedStep(NewHsl, Helpers(NewHsl), Initial(NewHsl, Hsl(0.0, 0.5, 0.75)), HSV).result ==
      Success(Rebuilt(Hsv(0.0, 0.29, 0.88), HSV))
  {
    var sl := Initial(NewHsl, Hsl(0.0, 0.5, 0.75));
    assert Own(NewHsl, sl) == Hsl(0.0, 0.5, 0.75);
    HslToHsvExample();
    RoundInt(0);
  }

  /** hsl(0, 50%, 75%) in HSV, and how the getters present it. */
  lemma HslToHsvExample()
    ensures HslToHsv(0.0, 0.5, 0.75) == Hsv(0.0, 2.0 / 7.0, 0.875)
    ensures Round2(2.0 / 7.0) == 0.29 && Round2(0.875) == 0.88
  {
    assert Min(0.75, 0.25) == 0.25;
  }
}
