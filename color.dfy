/**
 * A colour object of either base class: the thirteen nullable slots as
 * mutable fields, the getters that fill them, the conversions and the
 * transforms. Each method is specified by the step function of the Cache
 * or Transforms module it performs, instantiated with the class's own
 * helpers.
 */
module Colors {
  import opened Wrappers
  import opened Spaces
  import opened Cache
  import opened Parsers
  import opened Transforms

  class Color {
    /** The class the object is an instance of. */
    const kind: Kind
    var c: Option<real>
    var m: Option<real>
    var y: Option<real>
    var k: Option<real>
    var h: Option<real>
    var s: Option<real>
    var l: Option<real>
    var v: Option<real>
    var w: Option<real>
    var r: Option<real>
    var g: Option<real>
    var b: Option<real>
    var hex: Option<string>

    /** The fields as a cache state. */
    function State(): Slots
      reads this
    {
      Slots(c, m, y, k, h, s, l, v, w, r, g, b, hex)
    }

    /** The colour's own slots are filled. */
    predicate Valid()
      reads this
    {
      Owned(kind, State())
    }

    /** `new X({...})`: the channels given, normalised as the class's constructor does. */
    constructor (kind: Kind, x: Values)
      requires x.SpaceOf() == kind.Home()
      ensures Valid() && this.kind == kind && State() == Initial(kind, x)
    {
      this.kind := kind;
      c, m, y, k, h, s, l, v, w, r, g, b, hex := None, None, None, None, None, None, None, None, None, None, None, None, None;
      new;
      Put(Normalize(kind, x));
    }

    /** `new X(string)` once `_parse` has produced the tuple: the tuple stored as it is. */
    constructor Parsed(kind: Kind, x: Values)
      requires x.SpaceOf() == kind.Home()
      ensures Valid() && this.kind == kind && State() == Store(Empty, x)
    {
      this.kind := kind;
      c, m, y, k, h, s, l, v, w, r, g, b, hex := None, None, None, None, None, None, None, None, None, None, None, None, None;
      new;
      Put(x);
    }

    /** `new X(string)`: the parsed colour, or the error `_parse` throws. */
    static method FromString(kind: Kind, text: string) returns (res: Result<Color, Fault>)
      ensures res.Failure? <==> FromText(kind, text).Failure?
      ensures res.Failure? ==> res.error == FromText(kind, text).error
      ensures res.Success? ==>
        fresh(res.value) && res.value.Valid() && res.value.kind == kind && res.value.State() == FromText(kind, text).value
    {
      var parsed := Parse(kind, text);
      if parsed.Failure? {
        return Failure(parsed.error);
      }
      var col := new Color.Parsed(kind, parsed.value);
      res := Success(col);
    }

    /** A destructuring assignment `[this._h, this._s, this._l] = ...`: the tuple's slots overwritten. */
    method Put(x: Values)
      modifies this
      ensures State() == Store(old(State()), x)
    {
      match x
      case Cmyk(c0, m0, y0, k0) => c, m, y, k := Some(c0), Some(m0), Some(y0), Some(k0);
      case Hsl(h0, s0, l0) => h, s, l := Some(h0), Some(s0), Some(l0);
      case Hsv(h0, s0, v0) => h, s, v := Some(h0), Some(s0), Some(v0);
      case Hwb(h0, w0, k0) => h, w, k := Some(h0), Some(w0), Some(k0);
      case Rgb(r0, g0, b0) => r, g, b := Some(r0), Some(g0), Some(b0);
    }

    /** A channel getter: the slot, filled from the helper's tuple first if it is empty. */
    method Get(ch: Channel) returns (x: Result<real, Fault>)
      requires Valid() && HasGetter(kind, ch)
      modifies this
      ensures Valid()
      ensures x == Read(kind, Helpers(kind), old(State()), ch).result
      ensures State() == Read(kind, Helpers(kind), old(State()), ch).after
    {
      var t := SlotOf(ch);
      if At(State(), t).Some? {
        return Success(Present(kind, ch, At(State(), t).value));
      }
      ReadFills(kind, Helpers(kind), State(), ch);
      var fill := Helpers(kind)(Own(kind, State()), SpaceOfChannel(ch));
      if fill.Failure? {
        return Failure(fill.error);
      }
      Put(fill.value);
      x := Success(Present(kind, ch, Component(fill.value, t)));
    }

    /** Getters called one after another, the first failure thrown. */
    method GetAll(chs: seq<Channel>) returns (res: Result<seq<real>, Fault>)
      requires Valid() && forall i :: 0 <= i < |chs| ==> HasGetter(kind, chs[i])
      modifies this
      ensures Valid()
      ensures res == ReadAll(kind, Helpers(kind), old(State()), chs).result
      ensures State() == ReadAll(kind, Helpers(kind), old(State()), chs).after
    {
      var acc: seq<real> := [];
      var i := 0;
      ghost var whole := ReadAll(kind, Helpers(kind), State(), chs);
      ResumeStart(kind, Helpers(kind), State(), chs);
      while i < |chs|
        invariant 0 <= i <= |chs| && Valid()
        invariant whole == ReadAll(kind, Helpers(kind), old(State()), chs)
        invariant Resumes(kind, Helpers(kind), whole, State(), chs, i, acc)
      {
        ResumeNext(kind, Helpers(kind), whole, State(), chs, i, acc);
        var x := Get(chs[i]);
        if x.Failure? {
          return Failure(x.error);
        }
        acc := acc + [x.value];
        i := i + 1;
      }
      ResumeEnd(kind, Helpers(kind), whole, State(), chs, acc);
      return Success(acc);
    }

    /** The `array` getter. */
    method Array() returns (res: Result<seq<real>, Fault>)
      requires Valid()
      modifies this
      ensures Valid()
      ensures res == ArrayStep(kind, Helpers(kind), old(State())).result
      ensures State() == ArrayStep(kind, Helpers(kind), old(State())).after
    {
      res := GetAll(Getters(kind.Home()));
    }

    /** The `string` getter. */
    method Text() returns (res: Result<string, Fault>)
      requires Valid()
      modifies this
      ensures Valid()
      ensures res == StringStep(kind, Helpers(kind), old(State())).result
      ensures State() == StringStep(kind, Helpers(kind), old(State())).after
    {
      var a := Array();
      if a.Failure? {
        return Failure(a.error);
      }
      res := Show(kind, Tuple(kind.Home(), a.value));
    }

    /** The `hex` getter: the cached text, or the RGB getters rendered and cached. */
    method Hex() returns (res: Result<string, Fault>)
      requires Valid()
      modifies this
      ensures Valid()
      ensures res == HexStep(kind, Helpers(kind), old(State())).result
      ensures State() == HexStep(kind, Helpers(kind), old(State())).after
    {
      if hex.Some? {
        return Success(hex.value);
      }
      var rgb := GetAll(Getters(RGB));
      if rgb.Failure? {
        return Failure(rgb.error);
      }
      res := HexOf(rgb.value);
      if res.Success? {
        hex := Some(res.value);
      }
    }

    /**
     * A conversion `cmyk()` ... `rgb()`, as evidently intended: the target
     * tuple computed once by the helper, stored, and presented.
     */
    method To(target: Space) returns (res: Result<Outcome, Fault>)
      requires Valid()
      modifies this
      ensures Valid()
      ensures res == IntendedStep(kind, Helpers(kind), old(State()), target).result
      ensures State() == IntendedStep(kind, Helpers(kind), old(State()), target).after
    {
      if target == kind.Home() {
        if kind in {NewHsv, NewHwb} {
          return Success(Rebuilt(Own(kind, State()), target));
        }
        return Success(Receiver);
      }
      var t := Helpers(kind)(Own(kind, State()), target);
      if t.Failure? {
        return Failure(t.error);
      }
      StoreOwned(kind, State(), t.value);
      Put(t.value);
      res := Success(Rebuilt(Presented(kind, t.value), target));
    }

    /**
     * One `if (amount) { ... }` block of a transform: the amount checked,
     * then (except for `change`) the channel's getter read again.
     */
    method Apply(op: Op, ch: Channel, amount: Option<real>, init: real) returns (x: Result<real, Fault>)
      requires Valid() && HasGetter(kind, ch) && At(State(), SlotOf(ch)).Some?
      modifies this
      ensures Valid() && State() == old(State())
      ensures x == ChannelStep(op, ch, amount, init, Present(kind, ch, At(State(), SlotOf(ch)).value))
    {
      if !Acts(op, ch, amount) {
        return Success(init);
      }
      if !Allowed(op, ch, amount.value) {
        return Failure(Range(ch));
      }
      if op == Change {
        return ChannelStep(op, ch, amount, init, 0.0);
      }
      ReadFilled(kind, Helpers(kind), State(), ch);
      var cur := Get(ch);
      x := ChannelStep(op, ch, amount, init, cur.value);
    }

    /** `adjust`, `change` or `scale` with an options object. */
    method Transform(op: Op, o: Options) returns (res: Result<Outcome, Fault>)
      requires Valid() && kind.Newer()
      modifies this
      ensures Valid()
      ensures res == TransformStep(op, kind, Helpers(kind), old(State()), o).result
      ensures State() == TransformStep(op, kind, Helpers(kind), old(State()), o).after
    {
      var group := Group(op, o);
      if group.None? {
        return Success(Receiver);
      }
      var sp := group.value;
      var chs := Getters(sp);
      var first := GetAll(chs);
      if first.Failure? {
        return Failure(first.error);
      }
      ReadsFill(kind, Helpers(kind), old(State()), sp);
      ghost var cur := FilledValues(kind, State(), chs);
      FilledValuesAt(kind, State(), chs, 0);
      FilledValuesAt(kind, State(), chs, 1);
      FilledValuesAt(kind, State(), chs, 2);
      var a := Apply(op, chs[0], Given(o, chs[0]), first.value[0]);
      if a.Failure? {
        return Failure(a.error);
      }
      var b := Apply(op, chs[1], Given(o, chs[1]), first.value[1]);
      if b.Failure? {
        return Failure(b.error);
      }
      var c := Apply(op, chs[2], Given(o, chs[2]), first.value[2]);
      if c.Failure? {
        return Failure(c.error);
      }
      res := Success(Transformed(Tuple(sp, [a.value, b.value, c.value]), kind.Home()));
    }

    /** `complement()`. */
    method Complement() returns (res: Result<Outcome, Fault>)
      requires Valid() && kind.Newer()
      modifies this
      ensures Valid()
      ensures res == ComplementStep(kind, Helpers(kind), old(State())).result
      ensures State() == ComplementStep(kind, Helpers(kind), old(State())).after
    {
      res := Transform(Adjust, ComplementOptions);
    }

    /** `grayscale()`. */
    method Grayscale() returns (res: Result<Outcome, Fault>)
      requires Valid() && kind.Newer()
      modifies this
      ensures Valid()
      ensures res == GrayscaleStep(kind, Helpers(kind), old(State())).result
      ensures State() == GrayscaleStep(kind, Helpers(kind), old(State())).after
    {
      res := Transform(Change, GrayscaleOptions);
    }

    /** `invert()`. */
    method Invert() returns (res: Result<Outcome, Fault>)
      requires Valid() && kind.Newer()
      modifies this
      ensures Valid()
      ensures res == InvertStep(kind, Helpers(kind), old(State())).result
      ensures State() == InvertStep(kind, Helpers(kind), old(State())).after
    {
      var rgb := GetAll(Getters(RGB));
      if rgb.Failure? {
        return Failure(rgb.error);
      }
      res := Transform(Change, InvertOptions(rgb.value));
    }

    /**
     * `mix(color, weight)`. The receiver and the other colour may be the
     * same object; then every read lands in the one cache.
     */
    method Mix(other: Color, weight: real) returns (res: Result<Outcome, Fault>)
      requires Valid() && other.Valid() && kind.Newer() && other.kind.Newer()
      modifies this, other
      ensures Valid() && other.Valid()
      ensures other == this ==>
        res == MixSelfStep(kind, Helpers(kind), old(State()), weight).result &&
        State() == MixSelfStep(kind, Helpers(kind), old(State()), weight).after
      ensures other != this ==>
        var mixed := MixStep(kind, Helpers(kind), old(State()), other.kind, Helpers(other.kind), old(other.State()), weight);
        res == mixed.result && State() == mixed.mine && other.State() == mixed.theirs
    {
      if other == this {
        res := MixSelf(weight);
        return;
      }
      var r0 := Get(Red);
      if r0.Failure? {
        return Failure(r0.error);
      }
      var r1 := other.Get(Red);
      if r1.Failure? {
        return Failure(r1.error);
      }
      var g0 := Get(Green);
      if g0.Failure? {
        return Failure(g0.error);
      }
      var g1 := other.Get(Green);
      if g1.Failure? {
        return Failure(g1.error);
      }
      var b0 := Get(Blue);
      if b0.Failure? {
        return Failure(b0.error);
      }
      var b1 := other.Get(Blue);
      if b1.Failure? {
        return Failure(b1.error);
      }
      var x := Rgb(MixChannel(r0.value, r1.value, weight), MixChannel(g0.value, g1.value, weight), MixChannel(b0.value, b1.value, weight));
      res := Success(Transformed(x, kind.Home()));
    }

    /** `c.mix(c, weight)`: each channel read twice from the one cache. */
    method MixSelf(weight: real) returns (res: Result<Outcome, Fault>)
      requires Valid() && kind.Newer()
      modifies this
      ensures Valid()
      ensures res == MixSelfStep(kind, Helpers(kind), old(State()), weight).result
      ensures State() == MixSelfStep(kind, Helpers(kind), old(State()), weight).after
    {
      var r0 := Get(Red);
      if r0.Failure? {
        return Failure(r0.error);
      }
      ReadFilled(kind, Helpers(kind), State(), Red);
      var r1 := Get(Red);
      var g0 := Get(Green);
      if g0.Failure? {
        return Failure(g0.error);
      }
      ReadFilled(kind, Helpers(kind), State(), Green);
      var g1 := Get(Green);
      var b0 := Get(Blue);
      if b0.Failure? {
        return Failure(b0.error);
      }
      ReadFilled(kind, Helpers(kind), State(), Blue);
      var b1 := Get(Blue);
      var x := Rgb(MixChannel(r0.value, r1.value, weight), MixChannel(g0.value, g1.value, weight), MixChannel(b0.value, b1.value, weight));
      res := Success(Transformed(x, kind.Home()));
    }
  }
}
