/**
 * The functional-notation grammar shared by every `_parse` regular
 * expression and every `string` getter: a name, "(", fields separated by
 * "," and optional white space, ")". A field is a run of decimal digits
 * followed by a percent sign that, depending on the pattern, must not,
 * may, or must appear. For example the pattern
 * `^hsl\((\d+),\s*(\d+)%?,\s*(\d+)%?\)$` is the name "hsl" with the modes
 * [NoSign, MaySign, MaySign].
 */
module Grammar {
  import opened Wrappers
  import opened Text

  /** What a field's pattern says about a trailing "%": absent, `%?`, or `%`. */
  datatype Percent = NoSign | MaySign | MustSign

  /**
   * One matched field: the white space before it (empty for the first
   * field), its digits, and whether a "%" follows them.
   */
  datatype Field = Field(space: string, digits: string, percent: bool)

  /** The mode allows the field's percent sign (or its absence). */
  predicate Allowed(mode: Percent, percent: bool) {
    match mode
    case NoSign => !percent
    case MaySign => true
    case MustSign => percent
  }

  /** A field the mode's pattern matches: white space, then at least one digit, then an allowed sign. */
  predicate Fits(f: Field, mode: Percent) {
    AllSpaces(f.space) && 0 < |f.digits| && AllDigits(f.digits) && Allowed(mode, f.percent)
  }

  /**
   * Fields that fit the modes one for one, at least one of them, the first
   * without white space when it opens the list.
   */
  predicate Fitting(fs: seq<Field>, modes: seq<Percent>, first: bool) {
    |fs| == |modes| && 0 < |fs| && (first ==> fs[0].space == "") &&
    forall i :: 0 <= i < |fs| ==> Fits(fs[i], modes[i])
  }

  /**
   * The fields one match of the pattern with these modes consists of:
   * one per mode, each with at least one digit, only white space before
   * it, and none before the first.
   */
  predicate WellFormed(fs: seq<Field>, modes: seq<Percent>) {
    Fitting(fs, modes, true)
  }

  /** Text that may follow a field: "," before the next one or ")" after the last. */
  predicate Closes(tail: string) {
    0 < |tail| && (tail[0] == ',' || tail[0] == ')')
  }

  /** The text of a field's sign: "%" if present, nothing otherwise. */
  function Sign(percent: bool): string {
    if percent then "%" else ""
  }

  /** The text of one field: its white space, then its digits and sign. */
  function Piece(f: Field): string {
    f.space + (f.digits + Sign(f.percent))
  }

  /** The text of the fields, "," between them and ")" after the last. */
  function RenderList(fs: seq<Field>): (s: string)
    requires 0 < |fs|
  {
    Piece(fs[0]) + if |fs| == 1 then ")" else "," + RenderList(fs[1..])
  }

  /** The whole text a match consists of: the name, "(", then the fields. */
  function Render(name: string, fs: seq<Field>): string
    requires 0 < |fs|
  {
    name + "(" + RenderList(fs)
  }

  /** The longest prefix of s made of decimal digits. */
  function DigitPrefix(s: string): (d: string)
    ensures |d| <= |s| && d == s[..|d|] && AllDigits(d)
    ensures |d| < |s| ==> !IsDigit(s[|d|])
  {
    if |s| == 0 || !IsDigit(s[0]) then "" else [s[0]] + DigitPrefix(s[1..])
  }

  /** The longest prefix of s made of white space. */
  function SpacePrefix(s: string): (w: string)
    ensures |w| <= |s| && w == s[..|w|] && AllSpaces(w)
    ensures |w| < |s| ==> !IsSpace(s[|w|])
  {
    if |s| == 0 || !IsSpace(s[0]) then "" else [s[0]] + SpacePrefix(s[1..])
  }

  /**
   * Reads one field off the front of s: its white space (none for the
   * first field), its digits, and a "%" when the mode admits one; returns
   * the field and the text after it. The regular expression's `\s*` and
   * `\d+` can only match their longest run, because the character after
   * each run is never one the run could contain, so reading greedily and
   * never backtracking finds the same fields.
   */
  function ScanField(s: string, mode: Percent, first: bool): (r: Option<(Field, string)>)
  {
    var sp := if first then "" else SpacePrefix(s);
    ScanDigits(sp, s[|sp|..], mode)
  }

  /** The digits of a field whose white space sp has been read, and what follows them. */
  function ScanDigits(sp: string, s: string, mode: Percent): (r: Option<(Field, string)>)
  {
    var d := DigitPrefix(s);
    if |d| == 0 then None else ScanPercent(sp, d, s[|d|..], mode)
  }

  /** The "%" of a field whose white space and digits have been read, and what follows. */
  function ScanPercent(sp: string, d: string, s: string, mode: Percent): (r: Option<(Field, string)>)
  {
    var pct := |s| > 0 && s[0] == '%' && mode != NoSign;
    if mode == MustSign && !pct then None
    else Some((Field(sp, d, pct), if pct then s[1..] else s))
  }

  /** Reads one field per mode, "," between them and ")" after the last, up to the end of s. */
  function ScanList(s: string, modes: seq<Percent>, first: bool): (r: Option<seq<Field>>)
    requires 0 < |modes|
    ensures r.Some? ==> |r.value| == |modes|
    decreases |modes|
  {
    match ScanField(s, modes[0], first)
    case None => None
    case Some((f, rest)) =>
      if |modes| == 1 then
        if rest == ")" then Some([f]) else None
      else if |rest| > 0 && rest[0] == ',' then
        match ScanList(rest[1..], modes[1..], false)
        case None => None
        case Some(fs) => Some([f] + fs)
      else None
  }

  /** Matches the whole text against the pattern: the name, "(", then the fields. */
  function Scan(name: string, modes: seq<Percent>, text: string): (r: Option<seq<Field>>)
    requires 0 < |modes|
  {
    var head := name + "(";
    if |text| >= |head| && text[..|head|] == head then ScanList(text[|head|..], modes, true)
    else None
  }

  /** The numbers the capture groups hold, as `parseInt(_, 10)` reads them. */
  function Values(fs: seq<Field>): (vs: seq<nat>)
    requires forall i :: 0 <= i < |fs| ==> AllDigits(fs[i].digits)
    ensures |vs| == |fs|
    ensures forall i :: 0 <= i < |fs| ==> vs[i] == NumeralValue(fs[i].digits, 10)
  {
    if |fs| == 0 then [] else [NumeralValue(fs[0].digits, 10)] + Values(fs[1..])
  }

  // Steps about concatenation, each proved apart from the scanner's definitions.

  lemma Split(s: string, p: string)
    requires |p| <= |s| && p == s[..|p|]
    ensures s == p + s[|p|..]
  {
  }

  lemma Glue(s: string, a: string, b: string, c: string, x: string)
    requires s == a + x && x == b + c
    ensures s == a + b + c
  {
  }

  lemma DropPrefix(p: string, x: string)
    ensures (p + x)[|p|..] == x
  {
  }

  lemma Associate(a: string, b: string, c: string)
    ensures a + b + c == a + (b + c)
  {
  }

  lemma HeadTail(f: Field, fs: seq<Field>)
    ensures ([f] + fs)[0] == f && ([f] + fs)[1..] == fs
  {
  }

  /** The percent sign read off s is one the mode allows, and s is it followed by the rest. */
  lemma ScanPercentSound(sp: string, d: string, s: string, mode: Percent)
    requires ScanPercent(sp, d, s, mode).Some?
    ensures var r := ScanPercent(sp, d, s, mode).value;
      r.0.space == sp && r.0.digits == d && Allowed(mode, r.0.percent)
    ensures var r := ScanPercent(sp, d, s, mode).value;
      s == Sign(r.0.percent) + r.1
  {
    if |s| > 0 && s[0] == '%' && mode != NoSign {
      assert s == "%" + s[1..];
    }
  }

  /** The digits read off s are a non-empty digit run, and s is them followed by the rest. */
  lemma ScanDigitsSound(sp: string, s: string, mode: Percent)
    requires ScanDigits(sp, s, mode).Some?
    ensures var r := ScanDigits(sp, s, mode).value;
      r.0.space == sp && 0 < |r.0.digits| && AllDigits(r.0.digits) && Allowed(mode, r.0.percent)
    ensures var r := ScanDigits(sp, s, mode).value;
      s == r.0.digits + Sign(r.0.percent) + r.1
  {
    var d := DigitPrefix(s);
    var after := s[|d|..];
    ScanPercentSound(sp, d, after, mode);
    var r := ScanPercent(sp, d, after, mode).value;
    Split(s, d);
    Glue(s, d, Sign(r.0.percent), r.1, after);
  }

  /** One field read off s is a well-formed field, and s is its text followed by the rest. */
  lemma ScanFieldSound(s: string, mode: Percent, first: bool)
    requires ScanField(s, mode, first).Some?
    ensures var r := ScanField(s, mode, first).value;
      (first ==> r.0.space == "") && Fits(r.0, mode)
    ensures var r := ScanField(s, mode, first).value;
      s == Piece(r.0) + r.1
  {
    var sp := if first then "" else SpacePrefix(s);
    var body := s[|sp|..];
    ScanDigitsSound(sp, body, mode);
    var r := ScanDigits(sp, body, mode).value;
    Split(s, sp);
    Associate(r.0.digits, Sign(r.0.percent), r.1);
    Glue(s, sp, r.0.digits + Sign(r.0.percent), r.1, body);
  }

  /** An accepted list is its first field followed by the list accepted after that field's ",". */
  lemma ScanListStep(s: string, modes: seq<Percent>, first: bool)
    requires 1 < |modes| && ScanList(s, modes, first).Some?
    ensures ScanField(s, modes[0], first).Some?
    ensures var r := ScanField(s, modes[0], first).value;
      0 < |r.1| && r.1 == "," + r.1[1..] && ScanList(r.1[1..], modes[1..], false).Some? &&
      ScanList(s, modes, first).value == [r.0] + ScanList(r.1[1..], modes[1..], false).value
  {
    var r := ScanField(s, modes[0], first).value;
    Split(r.1, ",");
  }

  /** An accepted list of one field is that field followed by ")". */
  lemma ScanListLast(s: string, modes: seq<Percent>, first: bool)
    requires |modes| == 1 && ScanList(s, modes, first).Some?
    ensures ScanField(s, modes[0], first).Some?
    ensures var r := ScanField(s, modes[0], first).value;
      r.1 == ")" && ScanList(s, modes, first).value == [r.0]
  {
  }

  /** Every field the scanner accepts fits its mode, and the first has no white space. */
  lemma {:induction false} ScanListFits(s: string, modes: seq<Percent>, first: bool)
    requires 0 < |modes|
    requires ScanList(s, modes, first).Some?
    ensures var fs := ScanList(s, modes, first).value;
      (first ==> fs[0].space == "") && forall i :: 0 <= i < |fs| ==> Fits(fs[i], modes[i])
    decreases |modes|
  {
    ScanFieldSound(s, modes[0], first);
    if |modes| > 1 {
      ScanListStep(s, modes, first);
      var r := ScanField(s, modes[0], first).value;
      ListFits(r.0, r.1[1..], modes, false);
    } else {
      ScanListLast(s, modes, first);
    }
  }

  /** The fields after the first fit their modes when the list after the "," is accepted. */
  lemma {:induction false} ListFits(f: Field, more: string, modes: seq<Percent>, first: bool)
    requires 1 < |modes| && Fits(f, modes[0])
    requires ScanList(more, modes[1..], first).Some?
    ensures var fs := [f] + ScanList(more, modes[1..], first).value;
      forall i :: 0 <= i < |fs| ==> Fits(fs[i], modes[i])
    decreases |modes|, 0
  {
    ScanListFits(more, modes[1..], first);
    var tail := ScanList(more, modes[1..], first).value;
    var fs := [f] + tail;
    forall i | 0 <= i < |fs|
      ensures Fits(fs[i], modes[i])
    {
      if i > 0 {
        assert fs[i] == tail[i - 1];
      }
    }
  }

  /** Whatever the scanner accepts renders back to the text it read. */
  lemma {:induction false} ScanListText(s: string, modes: seq<Percent>, first: bool)
    requires 0 < |modes|
    requires ScanList(s, modes, first).Some?
    ensures s == RenderList(ScanList(s, modes, first).value)
    decreases |modes|
  {
    ScanFieldSound(s, modes[0], first);
    var r := ScanField(s, modes[0], first).value;
    if |modes| > 1 {
      ScanListStep(s, modes, first);
      var more := r.1[1..];
      ScanListText(more, modes[1..], false);
      var tail := ScanList(more, modes[1..], false).value;
      HeadTail(r.0, tail);
      Glue(s, Piece(r.0), ",", more, r.1);
      Associate(Piece(r.0), ",", more);
    } else {
      ScanListLast(s, modes, first);
    }
  }

  /** Whatever the whole-text matcher accepts is a well-formed match of the text. */
  lemma ScanSound(name: string, modes: seq<Percent>, text: string)
    requires 0 < |modes| && Scan(name, modes, text).Some?
    ensures var fs := Scan(name, modes, text).value;
      WellFormed(fs, modes) && text == Render(name, fs)
  {
    var head := name + "(";
    var body := text[|head|..];
    ScanListFits(body, modes, true);
    ScanListText(body, modes, true);
    Split(text, head);
  }

  /** The longest digit run of digits d followed by a non-digit is d. */
  lemma {:induction false} DigitPrefixOf(d: string, rest: string)
    requires AllDigits(d) && (0 < |rest| ==> !IsDigit(rest[0]))
    ensures DigitPrefix(d + rest) == d
    decreases |d|
  {
    if |d| > 0 {
      assert (d + rest)[0] == d[0];
      assert (d + rest)[1..] == d[1..] + rest;
      DigitPrefixOf(d[1..], rest);
      assert d == [d[0]] + d[1..];
    } else {
      assert d + rest == rest;
    }
  }

  /** The longest white-space run of spaces w followed by a non-space is w. */
  lemma {:induction false} SpacePrefixOf(w: string, rest: string)
    requires AllSpaces(w) && (0 < |rest| ==> !IsSpace(rest[0]))
    ensures SpacePrefix(w + rest) == w
    decreases |w|
  {
    if |w| > 0 {
      assert (w + rest)[0] == w[0];
      assert (w + rest)[1..] == w[1..] + rest;
      SpacePrefixOf(w[1..], rest);
      assert w == [w[0]] + w[1..];
    } else {
      assert w + rest == rest;
    }
  }

  /** A field's "%" (or its absence) is read back when "," or ")" follows it. */
  lemma ScanPercentComplete(f: Field, mode: Percent, tail: string)
    requires Allowed(mode, f.percent)
    requires Closes(tail)
    ensures ScanPercent(f.space, f.digits, Sign(f.percent) + tail, mode) == Some((f, tail))
  {
    if f.percent {
      DropPrefix("%", tail);
    } else {
      assert "" + tail == tail;
    }
  }

  /** A field's digits and "%" are read back when "," or ")" follows them. */
  lemma ScanDigitsComplete(f: Field, mode: Percent, tail: string)
    requires 0 < |f.digits| && AllDigits(f.digits) && Allowed(mode, f.percent)
    requires Closes(tail)
    ensures ScanDigits(f.space, f.digits + (Sign(f.percent) + tail), mode) == Some((f, tail))
  {
    var after := Sign(f.percent) + tail;
    assert 0 < |after| && !IsDigit(after[0]);
    DigitPrefixOf(f.digits, after);
    DropPrefix(f.digits, after);
    ScanPercentComplete(f, mode, tail);
  }

  /** A well-formed field is read back from its text when "," or ")" follows it. */
  lemma ScanFieldComplete(f: Field, mode: Percent, first: bool, tail: string)
    requires first ==> f.space == ""
    requires Fits(f, mode)
    requires Closes(tail)
    ensures ScanField(Piece(f) + tail, mode, first) == Some((f, tail))
  {
    var body := f.digits + (Sign(f.percent) + tail);
    Associate(f.space, f.digits + Sign(f.percent), tail);
    Associate(f.digits, Sign(f.percent), tail);
    assert Piece(f) + tail == f.space + body;
    if !first {
      assert body[0] == f.digits[0];
      SpacePrefixOf(f.space, body);
    }
    DropPrefix(f.space, body);
    ScanDigitsComplete(f, mode, tail);
  }

  /** A field followed by "," and an accepted list is accepted as one longer list. */
  lemma ScanListCons(s: string, modes: seq<Percent>, first: bool, f: Field, more: string)
    requires 1 < |modes|
    requires ScanField(s, modes[0], first) == Some((f, "," + more))
    requires ScanList(more, modes[1..], false).Some?
    ensures ScanList(s, modes, first) == Some([f] + ScanList(more, modes[1..], false).value)
  {
    DropPrefix(",", more);
  }

  /** A field followed by ")" alone is accepted as a list of one. */
  lemma ScanListOne(s: string, modes: seq<Percent>, first: bool, f: Field)
    requires |modes| == 1
    requires ScanField(s, modes[0], first) == Some((f, ")"))
    ensures ScanList(s, modes, first) == Some([f])
  {
  }

  /** The scanner reads back every list of well-formed fields from its rendering. */
  lemma {:induction false} ScanListComplete(fs: seq<Field>, modes: seq<Percent>, first: bool)
    requires Fitting(fs, modes, first)
    ensures ScanList(RenderList(fs), modes, first) == Some(fs)
    decreases |modes|, 1
  {
    if |fs| > 1 {
      ScanListCompleteCons(fs, modes, first);
    } else {
      ScanFieldComplete(fs[0], modes[0], first, ")");
      ScanListOne(RenderList(fs), modes, first, fs[0]);
      assert [fs[0]] == fs;
    }
  }

  /** The step of ScanListComplete for a list of more than one field. */
  lemma {:induction false} ScanListCompleteCons(fs: seq<Field>, modes: seq<Percent>, first: bool)
    requires 1 < |fs| && Fitting(fs, modes, first)
    ensures ScanList(RenderList(fs), modes, first) == Some(fs)
    decreases |modes|, 0
  {
    TailFits(fs, modes, first);
    ScanListComplete(fs[1..], modes[1..], false);
    RenderedCons(fs[0], fs[1..], modes, first);
  }

  /** If a list of fields is read back, so is the list with one more field in front. */
  lemma RenderedCons(f: Field, rest: seq<Field>, modes: seq<Percent>, first: bool)
    requires 0 < |rest| && |modes| == |rest| + 1 && (first ==> f.space == "") && Fits(f, modes[0])
    requires ScanList(RenderList(rest), modes[1..], false) == Some(rest)
    ensures ScanList(RenderList([f] + rest), modes, first) == Some([f] + rest)
  {
    var more := RenderList(rest);
    assert ([f] + rest)[0] == f && ([f] + rest)[1..] == rest;
    ScanFieldComplete(f, modes[0], first, "," + more);
    ScanListCons(RenderList([f] + rest), modes, first, f, more);
  }

  /** The first field fits the first mode, and the fields after it fit the modes after it. */
  lemma TailFits(fs: seq<Field>, modes: seq<Percent>, first: bool)
    requires 1 < |fs| && Fitting(fs, modes, first)
    ensures Fits(fs[0], modes[0]) && [fs[0]] + fs[1..] == fs
    ensures Fitting(fs[1..], modes[1..], false)
  {
    forall i | 0 <= i < |fs| - 1
      ensures Fits(fs[1..][i], modes[1..][i])
    {
      assert fs[1..][i] == fs[i + 1];
    }
  }

  /**
   * The matcher accepts exactly the well-formed renderings: together with
   * ScanSound, Scan(name, modes, text) == Some(fs) holds if and only if fs
   * is well formed and text == Render(name, fs).
   */
  lemma ScanComplete(name: string, modes: seq<Percent>, fs: seq<Field>)
    requires 0 < |modes| && WellFormed(fs, modes)
    ensures Scan(name, modes, Render(name, fs)) == Some(fs)
  {
    var head := name + "(";
    var text := Render(name, fs);
    assert text[..|head|] == head;
    DropPrefix(head, RenderList(fs));
    ScanListComplete(fs, modes, true);
  }

  /**
   * The numbers the capture groups of a match hold, as `parseInt(_, 10)`
   * reads them, or None when the text does not match the pattern.
   */
  function Match(name: string, modes: seq<Percent>, text: string): (r: Option<seq<nat>>)
    requires 0 < |modes|
    ensures r.Some? <==> Scan(name, modes, text).Some?
    ensures r.Some? ==> |r.value| == |modes|
  {
    match Scan(name, modes, text)
    case None => None
    case Some(fs) =>
      ScanSound(name, modes, text);
      Some(Values(fs))
  }

  /**
   * What a `string` getter prints for whole numbers: the name, "(", each
   * number in base 10 with "%" where asked for, separated by ", ", then ")".
   */
  function Format(name: string, nums: seq<int>, percents: seq<bool>): string
    requires 0 < |nums| && |percents| == |nums|
  {
    name + "(" + FormatList(nums, percents, true)
  }

  function FormatList(nums: seq<int>, percents: seq<bool>, first: bool): string
    requires 0 < |nums| && |percents| == |nums|
  {
    (if first then "" else " ") + (IntToDecimal(nums[0]) + Sign(percents[0])) +
    if |nums| == 1 then ")" else "," + FormatList(nums[1..], percents[1..], false)
  }

  /** The fields the `string` getter's text consists of, for non-negative whole numbers. */
  function Printed(nums: seq<nat>, percents: seq<bool>, first: bool): (fs: seq<Field>)
    requires |percents| == |nums|
    ensures |fs| == |nums|
    ensures forall i :: 0 <= i < |fs| ==>
      fs[i] == Field(if i == 0 && first then "" else " ", NatToNumeral(nums[i], 10), percents[i])
  {
    if |nums| == 0 then []
    else
      var f := Field(if first then "" else " ", NatToNumeral(nums[0], 10), percents[0]);
      [f] + Printed(nums[1..], percents[1..], false)
  }

  /** The text printed for non-negative numbers is the rendering of the printed fields. */
  lemma {:induction false} FormatListRenders(nums: seq<nat>, percents: seq<bool>, first: bool)
    requires 0 < |nums| && |percents| == |nums|
    ensures FormatList(nums, percents, first) == RenderList(Printed(nums, percents, first))
    decreases |nums|
  {
    var fs := Printed(nums, percents, first);
    if |nums| > 1 {
      FormatListRenders(nums[1..], percents[1..], false);
      assert fs[1..] == Printed(nums[1..], percents[1..], false);
    }
  }

  /**
   * Parsing what a `string` getter prints gives back its numbers, whenever
   * they are non-negative whole numbers and every "%" printed is one the
   * pattern allows.
   */
  lemma FormatRoundTrip(name: string, modes: seq<Percent>, nums: seq<nat>, percents: seq<bool>)
    requires 0 < |nums| && |percents| == |nums| && |modes| == |nums|
    requires forall i :: 0 <= i < |nums| ==> Allowed(modes[i], percents[i])
    ensures Scan(name, modes, Format(name, nums, percents)) == Some(Printed(nums, percents, true))
    ensures Values(Printed(nums, percents, true)) == nums
  {
    var fs := Printed(nums, percents, true);
    FormatListRenders(nums, percents, true);
    assert WellFormed(fs, modes);
    ScanComplete(name, modes, fs);
    var vs := Values(fs);
    forall i | 0 <= i < |nums|
      ensures vs[i] == nums[i]
    {
      NumeralRoundTrip(nums[i], 10);
    }
  }

  /**
   * Matching what a `string` getter prints captures its numbers, whenever
   * they are non-negative whole numbers and every "%" printed is one the
   * pattern allows.
   */
  lemma MatchFormat(name: string, modes: seq<Percent>, nums: seq<nat>, percents: seq<bool>)
    requires 0 < |nums| && |percents| == |nums| && |modes| == |nums|
    requires forall i :: 0 <= i < |nums| ==> Allowed(modes[i], percents[i])
    ensures Match(name, modes, Format(name, nums, percents)) == Some(nums)
  {
    FormatRoundTrip(name, modes, nums, percents);
  }

  /**
   * A rendered list ends with ")", and the character before it is "%"
   * exactly when the last field carries a sign.
   */
  lemma {:induction false} RenderListEnd(fs: seq<Field>)
    requires 0 < |fs| && 0 < |fs[|fs| - 1].digits| && AllDigits(fs[|fs| - 1].digits)
    ensures var t := RenderList(fs);
      2 <= |t| && t[|t| - 1] == ')' && (t[|t| - 2] == '%' <==> fs[|fs| - 1].percent)
    decreases |fs|
  {
    var t := RenderList(fs);
    if |fs| == 1 {
      var f := fs[0];
      assert t == f.space + (f.digits + Sign(f.percent)) + ")";
      if !f.percent {
        assert t[|t| - 2] == f.digits[|f.digits| - 1];
      }
    } else {
      var rest := RenderList(fs[1..]);
      assert fs[1..][|fs[1..]| - 1] == fs[|fs| - 1];
      RenderListEnd(fs[1..]);
      assert t == (Piece(fs[0]) + ",") + rest;
    }
  }

  /**
   * Where the pattern demands a "%" after the last number, every text it
   * accepts has "%" just before the closing parenthesis.
   */
  lemma StrictLastSign(name: string, modes: seq<Percent>, text: string)
    requires 0 < |modes| && modes[|modes| - 1] == MustSign
    ensures Scan(name, modes, text).Some? ==> 2 <= |text| && text[|text| - 2] == '%' && text[|text| - 1] == ')'
  {
    if Scan(name, modes, text).Some? {
      ScanSound(name, modes, text);
      var fs := Scan(name, modes, text).value;
      assert Fits(fs[|fs| - 1], modes[|modes| - 1]);
      RenderListEnd(fs);
      assert text == (name + "(") + RenderList(fs);
    }
  }
}
