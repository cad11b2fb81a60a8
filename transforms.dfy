/**
 * The transforms of the newer base class (src/lib/color.ts): `adjust`,
 * `change` and `scale` on one space group at a time, and `complement`,
 * `grayscale`, `invert` and `mix`, which are built on them or on the RGB
 * getters. Each reads the receiver's channels through its getters (so it
 * fills the cache as they do) and yields the tuple handed to the group's
 * constructor, tagged with the receiver's own space, into which the source
 * converts the new colour.
 */
module Transforms {
  import opened Wrappers
  import opened Numbers
  import opened Spaces
  import opened Cache

  /** The three transforms that take an options object. */
  datatype Op = Adjust | Change | Scale

  /**
   * An options object: a channel given (`'red' in options`) with its amount,
   * or absent. The scale options have no hue.
   */
  datatype Options = Options(
    red: Option<real>, green: Option<real>, blue: Option<real>,
    hue: Option<real>, saturation: Option<real>, lightness: Option<real>,
    whiteness: Option<real>, blackness: Option<real>)

  /** An options object naming nothing. */
  const NoOptions := Options(None, None, None, None, None, None, None, None)

  /** The amount an options object gives for a channel. */
  function Given(o: Options, ch: Channel): Option<real> {
    match ch
    case Red => o.red
    case Green => o.green
    case Blue => o.blue
    case Hue => o.hue
    case Saturation => o.saturation
    case Lightness => o.lightness
    case Whiteness => o.whiteness
    case Blackness => o.blackness
    case _ => None
  }

  /** A channel the transform looks at when the options name it; `scale` has no hue option. */
  predicate Named(op: Op, o: Options, ch: Channel) {
    Given(o, ch).Some? && !(op == Scale && ch == Hue)
  }

  /**
   * The space group a transform works in: RGB when a red, green or blue
   * amount is given, else HWB when whiteness or blackness is, else HSL
   * when hue (not for `scale`), saturation or lightness is, else none (the
   * receiver is returned).
   */
  function Group(op: Op, o: Options): (g: Option<Space>)
    ensures g.None? <==> forall ch :: !Named(op, o, ch)
    ensures g.Some? ==> g.value in {RGB, HWB, HSL}
    ensures g.Some? ==>
      Named(op, o, Getters(g.value)[0]) || Named(op, o, Getters(g.value)[1]) || Named(op, o, Getters(g.value)[2])
    ensures g == Some(HWB) ==> !Named(op, o, Red) && !Named(op, o, Green) && !Named(op, o, Blue)
    ensures g == Some(HSL) ==>
      !Named(op, o, Red) && !Named(op, o, Green) && !Named(op, o, Blue) &&
      !Named(op, o, Whiteness) && !Named(op, o, Blackness)
  {
    assert Getters(RGB) == [Red, Green, Blue] && Getters(HWB) == [Hue, Whiteness, Blackness];
    assert Getters(HSL) == [Hue, Saturation, Lightness];
    if Named(op, o, Red) || Named(op, o, Green) || Named(op, o, Blue) then Some(RGB)
    else if Named(op, o, Whiteness) || Named(op, o, Blackness) then Some(HWB)
    else if Named(op, o, Hue) || Named(op, o, Saturation) || Named(op, o, Lightness) then Some(HSL)
    else None
  }

  /** The top of a channel's range: 255 for RGB, 1 for the ratios. */
  function Top(ch: Channel): (t: real)
    ensures t == 255.0 || t == 1.0
  {
    if ch in {Red, Green, Blue} then 255.0 else 1.0
  }

  /**
   * Whether the amount acts on the channel: `change` acts on every value
   * given, `adjust` and `scale` skip a zero amount (`if (amount)`).
   */
  predicate Acts(op: Op, ch: Channel, amount: Option<real>) {
    amount.Some? && !(op == Scale && ch == Hue) && (op == Change || amount.value != 0.0)
  }

  /**
   * The amounts a transform accepts without a RangeError: `adjust` takes
   * -top..top, `change` takes 0..top, hue is never checked and `scale` never
   * throws.
   */
  predicate Allowed(op: Op, ch: Channel, a: real) {
    match op
    case Adjust => ch == Hue || -Top(ch) <= a <= Top(ch)
    case Change => ch == Hue || 0.0 <= a <= Top(ch)
    case Scale => true
  }

  /** A named channel whose amount the transform refuses with a RangeError. */
  predicate Refused(op: Op, o: Options, ch: Channel) {
    Acts(op, ch, Given(o, ch)) && !Allowed(op, ch, Given(o, ch).value)
  }

  /**
   * The hue `adjust` moves to, as evidently intended: the hue turned by the
   * amount, brought into [0, 360).
   */
  function AdjustHue(cur: real, d: real): (h: real)
    ensures 0.0 <= h < 360.0
    ensures IsInt((cur + d - h) / 360.0)
  {
    var r := Rem360(cur + d);
    var h := Rem360(r + 360.0);
    IntSum((cur + d - r) / 360.0, (r + 360.0 - h) / 360.0);
    assert (cur + d - h) / 360.0 == (cur + d - r) / 360.0 + (r + 360.0 - h) / 360.0 - 1.0;
    h
  }

  /**
   * The hue `adjust` moves to as written: `(hue + d) % 360` for a positive
   * amount and `((hue + d) % 360) + 360` otherwise, which overshoots 360
   * whenever the turned hue is not negative.
   */
  function AdjustHueAsWritten(cur: real, d: real): (h: real)
    ensures IsInt((cur + d - h) / 360.0)
  {
    var r := Rem360(cur + d);
    if d > 0.0 then r
    else
      IntSum((cur + d - r) / 360.0, 0.0);
      assert (cur + d - (r + 360.0)) / 360.0 == (cur + d - r) / 360.0 + 0.0 - 1.0;
      r + 360.0
  }

  /** Two whole numbers add to a whole number. */
  lemma IntSum(a: real, b: real)
    requires IsInt(a) && IsInt(b)
    ensures IsInt(a + b - 1.0)
  {
    var n := a.Floor + b.Floor - 1;
    assert a + b - 1.0 == n as real;
    assert (n as real).Floor == n;
  }

  /** A whole number strictly between -1 and 1 is zero. */
  lemma WithinTurn(x: real)
    requires IsInt(x) && -1.0 < x < 1.0
    ensures x == 0.0
  {
  }

  /** Two hues in [0, 360) a whole number of turns apart are the same. */
  lemma SameTurn(h: real, k: real)
    requires 0.0 <= h < 360.0 && 0.0 <= k < 360.0 && IsInt((h - k) / 360.0)
    ensures h == k
  {
    WithinTurn((h - k) / 360.0);
  }

  /**
   * The hue as written agrees with the intended one exactly when it lies in
   * [0, 360), and that is exactly when the sign of the amount matches the
   * sign of the truncated remainder.
   */
  lemma AdjustHueAsWrittenInRange(cur: real, d: real)
    requires d != 0.0
    ensures var h := AdjustHueAsWritten(cur, d);
      (0.0 <= h < 360.0 <==> (d > 0.0 <==> Rem360(cur + d) >= 0.0)) &&
      (0.0 <= h < 360.0 ==> h == AdjustHue(cur, d))
  {
    var h := AdjustHueAsWritten(cur, d);
    var k := AdjustHue(cur, d);
    if 0.0 <= h < 360.0 {
      IntDiff((cur + d - h) / 360.0, (cur + d - k) / 360.0);
      assert (k - h) / 360.0 == (cur + d - h) / 360.0 - (cur + d - k) / 360.0;
      SameTurn(k, h);
    }
  }

  /** The difference of two whole numbers is whole. */
  lemma IntDiff(a: real, b: real)
    requires IsInt(a) && IsInt(b)
    ensures IsInt(a - b)
  {
    var n := a.Floor - b.Floor;
    assert a - b == n as real;
    assert (n as real).Floor == n;
  }

  /** A negative amount that leaves the hue non-negative overshoots by a full turn. */
  lemma AdjustHueOvershoots(cur: real, d: real)
    requires d < 0.0 && 0.0 <= cur + d
    ensures 360.0 <= AdjustHueAsWritten(cur, d) < 720.0
    ensures AdjustHueAsWritten(cur, d) == AdjustHue(cur, d) + 360.0
  {
    var r := Rem360(cur + d);
    var k := AdjustHue(cur, d);
    IntDiff((cur + d - r) / 360.0, (cur + d - k) / 360.0);
    assert (k - r) / 360.0 == (cur + d - r) / 360.0 - (cur + d - k) / 360.0;
    SameTurn(k, r);
  }

  /** hwb(200, 0%, 0%) adjusted by a hue of -20: 540 as written, 180 as intended. */
  lemma AdjustHueExample()
    ensures AdjustHueAsWritten(200.0, -20.0) == 540.0
    ensures AdjustHue(200.0, -20.0) == 180.0
  {
    AdjustHueOvershoots(200.0, -20.0);
    assert Trunc(180.0 / 360.0) == 0;
  }

  /**
   * `adjust` on a ratio or RGB channel: the channel moved by the amount and
   * clamped into [0, top], so it moves in the amount's direction, by no
   * more than the amount, and by exactly the amount when that stays in
   * range.
   */
  function AdjustBy(ch: Channel, d: real, cur: real): (x: real)
    ensures d > 0.0 ==> x <= Top(ch) && x <= cur + d && (cur <= Top(ch) ==> cur <= x)
    ensures d <= 0.0 ==> 0.0 <= x && cur + d <= x && (0.0 <= cur ==> x <= cur)
    ensures 0.0 <= cur + d <= Top(ch) ==> x == cur + d
  {
    if d > 0.0 then Min(Top(ch), cur + d) else Max(0.0, cur + d)
  }

  /**
   * `scale` on a ratio or RGB channel: a positive factor moves the channel
   * that fraction of the way up to the top, a negative one that fraction
   * of the way down to zero; a factor beyond one reaches the end.
   */
  function Scaled(ch: Channel, f: real, cur: real): (x: real)
    requires f != 0.0
    ensures 0.0 <= cur <= Top(ch) ==> 0.0 <= x <= Top(ch)
    ensures 0.0 < f <= 1.0 && cur <= Top(ch) ==> Top(ch) - x == (1.0 - f) * (Top(ch) - cur)
    ensures 1.0 <= f && cur <= Top(ch) ==> x == Top(ch)
    ensures f > 0.0 && cur <= Top(ch) ==> cur <= x
    ensures f < 0.0 && 0.0 <= cur ==> x <= cur
    ensures -1.0 <= f < 0.0 && 0.0 <= cur ==> x == (1.0 + f) * cur
    ensures f <= -1.0 && 0.0 <= cur ==> x == 0.0
  {
    var t := Top(ch);
    if f > 0.0 then
      ScaleUp(t, f, cur);
      Min((t - cur) * f + cur, t)
    else
      ScaleDown(f, cur);
      Max(cur - cur * Abs(f), 0.0)
  }

  /** The arithmetic of scaling up towards a top t. */
  lemma ScaleUp(t: real, f: real, cur: real)
    requires 0.0 < f && 0.0 < t
    ensures var x := Min((t - cur) * f + cur, t);
      (0.0 <= cur <= t ==> 0.0 <= x <= t) && (cur <= t ==> cur <= x) &&
      (f <= 1.0 && cur <= t ==> t - x == (1.0 - f) * (t - cur)) &&
      (1.0 <= f && cur <= t ==> x == t)
  {
    var p := (t - cur) * f;
    if cur <= t {
      SignProduct(-(t - cur), f);
      assert (t - cur) * (1.0 - f) == (t - cur) - p;
      if f <= 1.0 {
        SignProduct(-(t - cur), -(1.0 - f));
      } else {
        SignProduct(-(t - cur), f - 1.0);
        assert (t - cur) * (f - 1.0) == p - (t - cur);
      }
    }
  }

  /** The arithmetic of scaling down towards zero. */
  lemma ScaleDown(f: real, cur: real)
    requires f < 0.0
    ensures var x := Max(cur - cur * Abs(f), 0.0);
      (0.0 <= cur ==> x <= cur) &&
      (-1.0 <= f && 0.0 <= cur ==> x == (1.0 + f) * cur) &&
      (f <= -1.0 && 0.0 <= cur ==> x == 0.0)
  {
    assert cur - cur * Abs(f) == (1.0 + f) * cur;
    if 0.0 <= cur {
      SignProduct(f, cur);
      if -1.0 <= f {
        SignProduct(1.0 + f, cur);
        assert 0.0 <= (1.0 + f) * cur;
      } else {
        SignProduct(1.0 + f, cur);
      }
    }
  }

  /** The sign of a product. */
  lemma SignProduct(a: real, b: real)
    ensures a <= 0.0 <= b ==> a * b <= 0.0
    ensures 0.0 <= a && 0.0 <= b ==> 0.0 <= a * b
  {
  }

  /**
   * One channel of a transform: the first value read when the amount does
   * not act; a RangeError naming the channel when the amount is out of
   * range; otherwise the moved, set or scaled channel, computed from the
   * channel as it reads at that point.
   */
  function ChannelStep(op: Op, ch: Channel, amount: Option<real>, init: real, cur: real): (r: Result<real, Fault>)
    ensures r.Failure? <==> Acts(op, ch, amount) && !Allowed(op, ch, amount.value)
    ensures r.Failure? ==> r.error == Range(ch)
    ensures !Acts(op, ch, amount) ==> r == Success(init)
    ensures op == Change && Acts(op, ch, amount) && ch != Hue && r.Success? ==> r.value == amount.value
    ensures op == Change && Acts(op, ch, amount) && ch == Hue ==>
      r.Success? && -360.0 < r.value < 360.0 && IsInt((amount.value - r.value) / 360.0)
    ensures op == Adjust && Acts(op, ch, amount) && ch == Hue ==>
      r.Success? && 0.0 <= r.value < 360.0 && IsInt((cur + amount.value - r.value) / 360.0)
  {
    if !Acts(op, ch, amount) then Success(init)
    else if !Allowed(op, ch, amount.value) then Failure(Range(ch))
    else
      var a := amount.value;
      match op
      case Adjust => Success(if ch == Hue then AdjustHue(cur, a) else AdjustBy(ch, a, cur))
      case Change => Success(if ch == Hue then Rem360(a) else a)
      case Scale => Success(Scaled(ch, a, cur))
  }

  /** The channel a transform computes for getter `i` of a group. */
  function ChannelOf(op: Op, sp: Space, o: Options, init: seq<real>, cur: seq<real>, i: nat): Result<real, Fault>
    requires i < |Getters(sp)| && i < |init| && i < |cur|
  {
    var ch := Getters(sp)[i];
    ChannelStep(op, ch, Given(o, ch), init[i], cur[i])
  }

  /**
   * The tuple of `_adjust*`, `_change*` or `_scale*`: the channels in the
   * group's getter order, the first refused one throwing its RangeError.
   */
  function Transform(op: Op, sp: Space, o: Options, init: seq<real>, cur: seq<real>): (r: Result<Values, Fault>)
    requires sp in {RGB, HWB, HSL} && |init| == 3 && |cur| == 3
    ensures var g := Getters(sp);
      r.Success? <==> !Refused(op, o, g[0]) && !Refused(op, o, g[1]) && !Refused(op, o, g[2])
    ensures var g := Getters(sp);
      r.Failure? ==>
        (Refused(op, o, g[0]) && r.error == Range(g[0])) ||
        (!Refused(op, o, g[0]) && Refused(op, o, g[1]) && r.error == Range(g[1])) ||
        (!Refused(op, o, g[0]) && !Refused(op, o, g[1]) && Refused(op, o, g[2]) && r.error == Range(g[2]))
    ensures r.Success? ==> (r.value.SpaceOf() == sp &&
      r.value.Array()[0] == ChannelOf(op, sp, o, init, cur, 0).value &&
      r.value.Array()[1] == ChannelOf(op, sp, o, init, cur, 1).value &&
      r.value.Array()[2] == ChannelOf(op, sp, o, init, cur, 2).value)
  {
    var a :- ChannelOf(op, sp, o, init, cur, 0);
    var b :- ChannelOf(op, sp, o, init, cur, 1);
    var c :- ChannelOf(op, sp, o, init, cur, 2);
    Success(Tuple(sp, [a, b, c]))
  }

  /**
   * `adjust`, `change` or `scale` on a colour of the newer base class: with
   * no channel named, the receiver itself; otherwise the group's getters
   * read in order (filling the cache as they do), then the tuple computed
   * from those first reads and from the channels as they read afterwards,
   * handed on to be converted into the receiver's space.
   */
  function TransformStep(op: Op, kind: Kind, help: Helper, sl: Slots, o: Options): (st: Step<Outcome>)
    requires Owned(kind, sl) && kind.Newer()
    ensures Owned(kind, st.after)
    ensures Group(op, o).None? ==> st == Step(Success(Receiver), sl)
    ensures Group(op, o).Some? ==> st.after == Reads(kind, help, sl, Group(op, o).value).after
    ensures st.result.Success? && Group(op, o).Some? ==>
      st.result.value.Transformed? && st.result.value.space == kind.Home() &&
      st.result.value.values.SpaceOf() == Group(op, o).value
  {
    match Group(op, o)
    case None => Step(Success(Receiver), sl)
    case Some(sp) =>
      var first := Reads(kind, help, sl, sp);
      if first.result.Failure? then Step(Failure(first.result.error), first.after)
      else
        ReadsFill(kind, help, sl, sp);
        var cur := FilledValues(kind, first.after, Getters(sp));
        match Transform(op, sp, o, first.result.value, cur)
        case Failure(e) => Step(Failure(e), first.after)
        case Success(x) => Step(Success(Transformed(x, kind.Home())), first.after)
  }

  /**
   * Once the group's getters have read, a transform throws exactly when
   * one of the named amounts is out of range, and the error names the
   * first such channel in the group's order.
   */
  lemma TransformThrows(op: Op, kind: Kind, help: Helper, sl: Slots, o: Options)
    requires Owned(kind, sl) && kind.Newer() && Group(op, o).Some?
    requires Reads(kind, help, sl, Group(op, o).value).result.Success?
    ensures var g := Getters(Group(op, o).value);
      var st := TransformStep(op, kind, help, sl, o);
      (st.result.Failure? <==> Refused(op, o, g[0]) || Refused(op, o, g[1]) || Refused(op, o, g[2])) &&
      (st.result.Failure? ==>
        (Refused(op, o, g[0]) && st.result.error == Range(g[0])) ||
        (!Refused(op, o, g[0]) && Refused(op, o, g[1]) && st.result.error == Range(g[1])) ||
        (!Refused(op, o, g[0]) && !Refused(op, o, g[1]) && Refused(op, o, g[2]) && st.result.error == Range(g[2])))
  {
    TransformStepOf(op, kind, help, sl, o, Group(op, o).value);
  }

  /** `scale` never throws a RangeError: it fails only when a getter does. */
  lemma ScaleNeverThrows(kind: Kind, help: Helper, sl: Slots, o: Options)
    requires Owned(kind, sl) && kind.Newer() && Group(Scale, o).Some?
    ensures TransformStep(Scale, kind, help, sl, o).result.Success? <==>
      Reads(kind, help, sl, Group(Scale, o).value).result.Success?
  {
    TransformStepOf(Scale, kind, help, sl, o, Group(Scale, o).value);
  }

  /**
   * A channel of the group that the options do not act on keeps the value
   * its getter first returned.
   */
  lemma UnnamedKept(op: Op, kind: Kind, help: Helper, sl: Slots, o: Options, i: nat)
    requires Owned(kind, sl) && kind.Newer() && Group(op, o).Some? && i < 3
    requires !Acts(op, Getters(Group(op, o).value)[i], Given(o, Getters(Group(op, o).value)[i]))
    ensures var sp := Group(op, o).value;
      var st := TransformStep(op, kind, help, sl, o);
      st.result.Success? ==> st.result.value.values.Array()[i] == Reads(kind, help, sl, sp).result.value[i]
  {
    TransformStepOf(op, kind, help, sl, o, Group(op, o).value);
  }

  /**
   * `change` sets every ratio or RGB channel it names to the given amount,
   * and the hue to the amount's truncated remainder by 360.
   */
  lemma ChangeSets(kind: Kind, help: Helper, sl: Slots, o: Options, i: nat)
    requires Owned(kind, sl) && kind.Newer() && Group(Change, o).Some? && i < 3
    requires Given(o, Getters(Group(Change, o).value)[i]).Some?
    ensures var sp := Group(Change, o).value;
      var ch := Getters(sp)[i];
      var st := TransformStep(Change, kind, help, sl, o);
      st.result.Success? ==>
        st.result.value.values.Array()[i] == if ch == Hue then Rem360(Given(o, ch).value) else Given(o, ch).value
  {
    TransformStepOf(Change, kind, help, sl, o, Group(Change, o).value);
  }

  /**
   * `adjust` by zero amounts only: the group's channels exactly as the
   * getters first returned them.
   */
  lemma AdjustByZero(kind: Kind, help: Helper, sl: Slots, o: Options)
    requires Owned(kind, sl) && kind.Newer() && Group(Adjust, o).Some?
    requires forall ch :: Given(o, ch).Some? ==> Given(o, ch).value == 0.0
    ensures var sp := Group(Adjust, o).value;
      var first := Reads(kind, help, sl, sp);
      first.result.Success? ==>
        TransformStep(Adjust, kind, help, sl, o) == Step(Success(Transformed(Tuple(sp, first.result.value), kind.Home())), first.after)
  {
    var sp := Group(Adjust, o).value;
    var first := Reads(kind, help, sl, sp);
    if first.result.Success? {
      ReadsFill(kind, help, sl, sp);
      var cur := FilledValues(kind, first.after, Getters(sp));
      var x := Transform(Adjust, sp, o, first.result.value, cur).value;
      assert x.Array() == first.result.value;
      TupleArray(x);
    }
  }

  /** The options `complement` passes: a hue turned by 180. */
  const ComplementOptions := NoOptions.(hue := Some(180.0))

  /** The options `grayscale` passes: saturation set to zero. */
  const GrayscaleOptions := NoOptions.(saturation := Some(0.0))

  /** `complement()`: `adjust({hue: 180})`. */
  function ComplementStep(kind: Kind, help: Helper, sl: Slots): (st: Step<Outcome>)
    requires Owned(kind, sl) && kind.Newer()
    ensures Owned(kind, st.after)
  {
    TransformStep(Adjust, kind, help, sl, ComplementOptions)
  }

  /** `grayscale()`: `change({saturation: 0})`. */
  function GrayscaleStep(kind: Kind, help: Helper, sl: Slots): (st: Step<Outcome>)
    requires Owned(kind, sl) && kind.Newer()
    ensures Owned(kind, st.after)
  {
    TransformStep(Change, kind, help, sl, GrayscaleOptions)
  }

  /**
   * The complement keeps the saturation and lightness first read and turns
   * the hue, as it reads after them, half way round, inside [0, 360).
   */
  lemma ComplementTurnsHue(kind: Kind, help: Helper, sl: Slots)
    requires Owned(kind, sl) && kind.Newer()
    ensures var first := Reads(kind, help, sl, HSL);
      var st := ComplementStep(kind, help, sl);
      first.result.Success? ==>
        first.after.h.Some? && st.after == first.after && st.result.Success? &&
        var h := Present(kind, Hue, first.after.h.value);
        st.result.value == Transformed(Hsl(AdjustHue(h, 180.0), first.result.value[1], first.result.value[2]), kind.Home())
  {
    var first := Reads(kind, help, sl, HSL);
    if first.result.Success? {
      ReadsFill(kind, help, sl, HSL);
      assert Getters(HSL)[0] == Hue && SlotOf(Hue) == H;
      FilledValuesAt(kind, first.after, Getters(HSL), 0);
      ComplementTuple(first.result.value, FilledValues(kind, first.after, Getters(HSL)));
    }
  }

  /** On the tuple level complement turns the current hue by 180 degrees and keeps the other two channels. */
  lemma ComplementTuple(vs: seq<real>, cur: seq<real>)
    requires |vs| == 3 && |cur| == 3
    ensures Group(Adjust, ComplementOptions) == Some(HSL)
    ensures Transform(Adjust, HSL, ComplementOptions, vs, cur) == Success(Hsl(AdjustHue(cur[0], 180.0), vs[1], vs[2]))
  {
    var o := ComplementOptions;
    assert Named(Adjust, o, Hue);
    assert Getters(HSL) == [Hue, Saturation, Lightness];
    var x := Transform(Adjust, HSL, o, vs, cur).value;
    assert x.Array()[0] == AdjustHue(cur[0], 180.0) && x.Array()[1] == vs[1] && x.Array()[2] == vs[2];
  }

  /**
   * The complement's hue as written agrees with the model's whenever the
   * turned hue h + 180 is not negative, which holds for every hue in [0, 360).
   */
  lemma ComplementHueAsWritten(cur: real)
    ensures cur + 180.0 >= 0.0 ==> AdjustHueAsWritten(cur, 180.0) == AdjustHue(cur, 180.0)
  {
    AdjustHueAsWrittenInRange(cur, 180.0);
  }

  /** A stored hue of -300 complements to -120 as written and to 240 in the model. */
  lemma ComplementHueExample()
    ensures AdjustHueAsWritten(-300.0, 180.0) == -120.0
    ensures AdjustHue(-300.0, 180.0) == 240.0
  {
    assert Trunc(-120.0 / 360.0) == 0;
    assert Rem360(-120.0) == -120.0;
    assert Trunc(240.0 / 360.0) == 0;
  }

  /** Grayscale keeps the hue and lightness first read and sets the saturation to zero; it never throws. */
  lemma GrayscaleClearsSaturation(kind: Kind, help: Helper, sl: Slots)
    requires Owned(kind, sl) && kind.Newer()
    ensures var first := Reads(kind, help, sl, HSL);
      var st := GrayscaleStep(kind, help, sl);
      first.result.Success? ==>
        st == Step(Success(Transformed(Hsl(first.result.value[0], 0.0, first.result.value[2]), kind.Home())), first.after)
  {
    var first := Reads(kind, help, sl, HSL);
    if first.result.Success? {
      ReadsFill(kind, help, sl, HSL);
      GrayscaleTuple(first.result.value, FilledValues(kind, first.after, Getters(HSL)));
    }
  }

  /** On the tuple level grayscale sets the saturation to 0 and keeps hue and lightness. */
  lemma GrayscaleTuple(vs: seq<real>, cur: seq<real>)
    requires |vs| == 3 && |cur| == 3
    ensures Group(Change, GrayscaleOptions) == Some(HSL)
    ensures Transform(Change, HSL, GrayscaleOptions, vs, cur) == Success(Hsl(vs[0], 0.0, vs[2]))
  {
    var o := GrayscaleOptions;
    assert Named(Change, o, Saturation);
    assert Getters(HSL) == [Hue, Saturation, Lightness];
    var x := Transform(Change, HSL, o, vs, cur).value;
    assert x.Array()[0] == vs[0] && x.Array()[1] == 0.0 && x.Array()[2] == vs[2];
  }

  /** The options `invert` passes: each RGB channel taken from 255. */
  function InvertOptions(rgb: seq<real>): (o: Options)
    requires |rgb| == 3
    ensures Given(o, Red) == Some(255.0 - rgb[0]) && Given(o, Green) == Some(255.0 - rgb[1])
    ensures Given(o, Blue) == Some(255.0 - rgb[2])
  {
    NoOptions.(red := Some(255.0 - rgb[0]), green := Some(255.0 - rgb[1]), blue := Some(255.0 - rgb[2]))
  }

  /** `invert()`: the RGB getters, then `change` with each channel taken from 255. */
  function InvertStep(kind: Kind, help: Helper, sl: Slots): (st: Step<Outcome>)
    requires Owned(kind, sl) && kind.Newer()
    ensures Owned(kind, st.after)
  {
    var rgb := Reads(kind, help, sl, RGB);
    if rgb.result.Failure? then Step(Failure(rgb.result.error), rgb.after)
    else TransformStep(Change, kind, help, rgb.after, InvertOptions(rgb.result.value))
  }

  /**
   * The inverse is the RGB colour with each channel read taken from 255; it
   * throws a RangeError exactly when a channel read lies outside 0..255.
   */
  lemma InvertComplementsRgb(kind: Kind, help: Helper, sl: Slots)
    requires Owned(kind, sl) && kind.Newer()
    ensures var rgb := Reads(kind, help, sl, RGB);
      var st := InvertStep(kind, help, sl);
      rgb.result.Success? ==>
        var vs := rgb.result.value;
        (st.result.Success? <==> 0.0 <= vs[0] <= 255.0 && 0.0 <= vs[1] <= 255.0 && 0.0 <= vs[2] <= 255.0) &&
        (st.result.Success? ==> st.result.value == Transformed(Rgb(255.0 - vs[0], 255.0 - vs[1], 255.0 - vs[2]), kind.Home()))
  {
    var rgb := Reads(kind, help, sl, RGB);
    if rgb.result.Success? {
      InvertRereads(kind, help, sl);
      InvertFilled(kind, help, rgb.after, rgb.result.value);
    }
  }

  /** On slots whose red, green and blue are already filled, invert's transform is the tuple-level one. */
  lemma InvertFilled(kind: Kind, help: Helper, sl: Slots, vs: seq<real>)
    requires Owned(kind, sl) && kind.Newer() && |vs| == 3
    requires forall i :: 0 <= i < 3 ==> At(sl, SlotOf(Getters(RGB)[i])).Some?
    requires Reads(kind, help, sl, RGB) == Step(Success(FilledValues(kind, sl, Getters(RGB))), sl)
    ensures var st := TransformStep(Change, kind, help, sl, InvertOptions(vs));
      st.after == sl &&
      (st.result.Success? <==> 0.0 <= vs[0] <= 255.0 && 0.0 <= vs[1] <= 255.0 && 0.0 <= vs[2] <= 255.0) &&
      (st.result.Success? ==> st.result.value == Transformed(Rgb(255.0 - vs[0], 255.0 - vs[1], 255.0 - vs[2]), kind.Home()))
  {
    InvertTuple(vs, FilledValues(kind, sl, Getters(RGB)));
    TransformStepOf(Change, kind, help, sl, InvertOptions(vs), RGB);
  }

  /** After the first read of red, green and blue, the transform reads the same slots again and changes nothing. */
  lemma InvertRereads(kind: Kind, help: Helper, sl: Slots)
    requires Owned(kind, sl) && kind.Newer()
    ensures var rgb := Reads(kind, help, sl, RGB);
      rgb.result.Success? ==>
        (forall i :: 0 <= i < 3 ==> At(rgb.after, SlotOf(Getters(RGB)[i])).Some?) &&
        Reads(kind, help, rgb.after, RGB) == Step(Success(FilledValues(kind, rgb.after, Getters(RGB))), rgb.after) &&
        InvertStep(kind, help, sl) == TransformStep(Change, kind, help, rgb.after, InvertOptions(rgb.result.value))
  {
    var rgb := Reads(kind, help, sl, RGB);
    if rgb.result.Success? {
      ReadsFill(kind, help, sl, RGB);
      ReadAllFilled(kind, help, rgb.after, Getters(RGB));
    }
  }

  /**
   * Once the group's getters have been read, a transform is the tuple-level
   * Transform of what they returned, built into the receiver's own space.
   */
  lemma TransformStepOf(op: Op, kind: Kind, help: Helper, sl: Slots, o: Options, sp: Space)
    requires Owned(kind, sl) && kind.Newer() && Group(op, o) == Some(sp)
    ensures var first := Reads(kind, help, sl, sp);
      first.result.Success? ==>
        (forall i :: 0 <= i < |Getters(sp)| ==> At(first.after, SlotOf(Getters(sp)[i])).Some?) &&
        var r := Transform(op, sp, o, first.result.value, FilledValues(kind, first.after, Getters(sp)));
        TransformStep(op, kind, help, sl, o) ==
          Step(if r.Success? then Success(Transformed(r.value, kind.Home())) else Failure(r.error), first.after)
  {
    ReadsFill(kind, help, sl, sp);
  }

  /** The tuple `change` computes from the invert options, whatever the channels read. */
  lemma InvertTuple(vs: seq<real>, cur: seq<real>)
    requires |vs| == 3 && |cur| == 3
    ensures var o := InvertOptions(vs);
      var r := Transform(Change, RGB, o, cur, cur);
      Group(Change, o) == Some(RGB) &&
      (r.Success? <==> forall i :: 0 <= i < 3 ==> 0.0 <= vs[i] <= 255.0) &&
      (r.Success? ==> r.value == Rgb(255.0 - vs[0], 255.0 - vs[1], 255.0 - vs[2]))
  {
    var o := InvertOptions(vs);
    assert Named(Change, o, Red);
    assert Getters(RGB) == [Red, Green, Blue];
    assert Refused(Change, o, Red) <==> !(0.0 <= vs[0] <= 255.0);
    assert Refused(Change, o, Green) <==> !(0.0 <= vs[1] <= 255.0);
    assert Refused(Change, o, Blue) <==> !(0.0 <= vs[2] <= 255.0);
    var r := Transform(Change, RGB, o, cur, cur);
    if r.Success? {
      var x := r.value;
      assert x.Array()[0] == 255.0 - vs[0] && x.Array()[1] == 255.0 - vs[1] && x.Array()[2] == 255.0 - vs[2];
    }
  }

  /**
   * Inverting twice gives the channels back: the tuple `change` computes from
   * the invert options of channels in 0..255, inverted again, is the RGB
   * tuple of those channels.
   */
  lemma InvertInvolution(vs: seq<real>, cur: seq<real>, cur2: seq<real>)
    requires |vs| == 3 && |cur| == 3 && |cur2| == 3
    requires 0.0 <= vs[0] <= 255.0 && 0.0 <= vs[1] <= 255.0 && 0.0 <= vs[2] <= 255.0
    ensures var once := Transform(Change, RGB, InvertOptions(vs), cur, cur);
      once.Success? &&
      Transform(Change, RGB, InvertOptions(once.value.Array()), cur2, cur2) == Success(Rgb(vs[0], vs[1], vs[2]))
  {
    InvertTuple(vs, cur);
    var once := Transform(Change, RGB, InvertOptions(vs), cur, cur);
    InvertTuple(once.value.Array(), cur2);
  }

  /**
   * One channel of `mix`: the receiver's share is the weight, the other
   * colour's the rest, so weight 1 gives the receiver's channel, weight 0
   * the other's, and a weight in [0, 1] a value between the two.
   */
  function MixChannel(mine: real, theirs: real, w: real): (x: real)
    ensures x - theirs == w * (mine - theirs)
    ensures w == 1.0 ==> x == mine
    ensures w == 0.0 ==> x == theirs
    ensures 0.0 <= w <= 1.0 ==> Min(mine, theirs) <= x <= Max(mine, theirs)
  {
    var d := mine - theirs;
    assert mine * w + theirs * (1.0 - w) - theirs == w * d;
    assert (1.0 - w) * d == d - w * d;
    SignProduct(w, d);
    SignProduct(d, w);
    SignProduct(1.0 - w, d);
    SignProduct(d, 1.0 - w);
    mine * w + theirs * (1.0 - w)
  }

  /** The outcome of `mix` on two distinct colours: its result and both colours' slots afterwards. */
  datatype Mixed = Mixed(result: Result<Outcome, Fault>, mine: Slots, theirs: Slots)

  /**
   * `mix(color, weight)` on two distinct colours: red, green and blue read
   * from the receiver and the other colour in turn, then mixed channel by
   * channel into an RGB tuple converted into the receiver's space.
   */
  function MixStep(kind: Kind, help: Helper, sl: Slots, other: Kind, otherHelp: Helper, osl: Slots, w: real): (m: Mixed)
    requires Owned(kind, sl) && Owned(other, osl) && kind.Newer() && other.Newer()
    ensures Owned(kind, m.mine) && Owned(other, m.theirs)
    ensures m.result.Success? ==>
      m.result.value.Transformed? && m.result.value.space == kind.Home() && m.result.value.values.Rgb?
  {
    var r0 := Read(kind, help, sl, Red);
    if r0.result.Failure? then Mixed(Failure(r0.result.error), r0.after, osl) else
    var r1 := Read(other, otherHelp, osl, Red);
    if r1.result.Failure? then Mixed(Failure(r1.result.error), r0.after, r1.after) else
    var g0 := Read(kind, help, r0.after, Green);
    if g0.result.Failure? then Mixed(Failure(g0.result.error), g0.after, r1.after) else
    var g1 := Read(other, otherHelp, r1.after, Green);
    if g1.result.Failure? then Mixed(Failure(g1.result.error), g0.after, g1.after) else
    var b0 := Read(kind, help, g0.after, Blue);
    if b0.result.Failure? then Mixed(Failure(b0.result.error), b0.after, g1.after) else
    var b1 := Read(other, otherHelp, g1.after, Blue);
    if b1.result.Failure? then Mixed(Failure(b1.result.error), b0.after, b1.after) else
    var x := Rgb(
      MixChannel(r0.result.value, r1.result.value, w),
      MixChannel(g0.result.value, g1.result.value, w),
      MixChannel(b0.result.value, b1.result.value, w));
    Mixed(Success(Transformed(x, kind.Home())), b0.after, b1.after)
  }

  /**
   * A successful mix is the channel-by-channel mix of what the two
   * colours' RGB getters return, and leaves each colour as its RGB getters
   * leave it.
   */
  lemma MixOfReads(kind: Kind, help: Helper, sl: Slots, other: Kind, otherHelp: Helper, osl: Slots, w: real)
    requires Owned(kind, sl) && Owned(other, osl) && kind.Newer() && other.Newer()
    ensures var m := MixStep(kind, help, sl, other, otherHelp, osl, w);
      var a := Reads(kind, help, sl, RGB);
      var b := Reads(other, otherHelp, osl, RGB);
      m.result.Success? ==>
        a.result.Success? && b.result.Success? && m.mine == a.after && m.theirs == b.after &&
        m.result.value.values == Rgb(
          MixChannel(a.result.value[0], b.result.value[0], w),
          MixChannel(a.result.value[1], b.result.value[1], w),
          MixChannel(a.result.value[2], b.result.value[2], w))
  {
    assert Getters(RGB) == [Red, Green, Blue];
    ReadAllThree(kind, help, sl, Red, Green, Blue);
    ReadAllThree(other, otherHelp, osl, Red, Green, Blue);
  }

  /**
   * `mix` with the colour itself (`c.mix(c, w)`): the reads alternate on one
   * cache, so the second read of each channel finds the slot the first one
   * filled; at any weight the result is the colour's own RGB channels.
   */
  function MixSelfStep(kind: Kind, help: Helper, sl: Slots, w: real): (st: Step<Outcome>)
    requires Owned(kind, sl) && kind.Newer()
    ensures Owned(kind, st.after)
  {
    var r0 := Read(kind, help, sl, Red);
    if r0.result.Failure? then Step(Failure(r0.result.error), r0.after) else
    ReadFilled(kind, help, r0.after, Red);
    var r1 := Read(kind, help, r0.after, Red);
    var g0 := Read(kind, help, r1.after, Green);
    if g0.result.Failure? then Step(Failure(g0.result.error), g0.after) else
    ReadFilled(kind, help, g0.after, Green);
    var g1 := Read(kind, help, g0.after, Green);
    var b0 := Read(kind, help, g1.after, Blue);
    if b0.result.Failure? then Step(Failure(b0.result.error), b0.after) else
    ReadFilled(kind, help, b0.after, Blue);
    var b1 := Read(kind, help, b0.after, Blue);
    var x := Rgb(
      MixChannel(r0.result.value, r1.result.value, w),
      MixChannel(g0.result.value, g1.result.value, w),
      MixChannel(b0.result.value, b1.result.value, w));
    Step(Success(Transformed(x, kind.Home())), b1.after)
  }

  /** Mixing a colour with itself, at any weight, gives its own RGB channels as its getters return them. */
  lemma MixSelfIsOwnRgb(kind: Kind, help: Helper, sl: Slots, w: real)
    requires Owned(kind, sl) && kind.Newer()
    ensures var a := Reads(kind, help, sl, RGB);
      var st := MixSelfStep(kind, help, sl, w);
      (st.result.Success? <==> a.result.Success?) &&
      (st.result.Success? ==> (st.after == a.after &&
        st.result.value == Transformed(Rgb(a.result.value[0], a.result.value[1], a.result.value[2]), kind.Home())))
  {
    ReadAllThreeNeeds(kind, help, sl, Red, Green, Blue);
    var r0 := Read(kind, help, sl, Red);
    if r0.result.Success? {
      ReadFilled(kind, help, r0.after, Red);
      var g0 := Read(kind, help, r0.after, Green);
      if g0.result.Success? {
        ReadFilled(kind, help, g0.after, Green);
        var b0 := Read(kind, help, g0.after, Blue);
        if b0.result.Success? {
          ReadFilled(kind, help, b0.after, Blue);
        }
      }
    }
    assert Getters(RGB) == [Red, Green, Blue];
    ReadAllThree(kind, help, sl, Red, Green, Blue);
  }
}
