/**
 * Characters and numerals: the `\d` and `\s` classes of the parsers' regular
 * expressions, `parseInt` in base 10 and 16, and the text JavaScript prints
 * for a whole number in base 10 (template literals) and base 16
 * (`toString(16)`, `padStart(2, "0")`).
 */
module Text {
  import opened Wrappers

  /** `\d`: an ASCII decimal digit. */
  predicate IsDigit(ch: char) {
    '0' <= ch <= '9'
  }

  /** A hexadecimal digit in either case, as `parseInt(_, 16)` reads them. */
  predicate IsHexDigit(ch: char) {
    IsDigit(ch) || 'a' <= ch <= 'f' || 'A' <= ch <= 'F'
  }

  /**
   * `\s` of a JavaScript regular expression, which is also the set of
   * characters `parseInt` skips at the start of its argument: white space and
   * line terminators.
   */
  predicate IsSpace(ch: char) {
    var c := ch as int;
    (0x09 <= c <= 0x0D) || c == 0x20 || c == 0xA0 || c == 0x1680 ||
    (0x2000 <= c <= 0x200A) || c == 0x2028 || c == 0x2029 || c == 0x202F ||
    c == 0x205F || c == 0x3000 || c == 0xFEFF
  }

  predicate AllDigits(s: string) {
    forall i :: 0 <= i < |s| ==> IsDigit(s[i])
  }

  predicate AllHexDigits(s: string) {
    forall i :: 0 <= i < |s| ==> IsHexDigit(s[i])
  }

  predicate AllSpaces(s: string) {
    forall i :: 0 <= i < |s| ==> IsSpace(s[i])
  }

  /** The value of a hexadecimal digit (a decimal digit is one too). */
  function HexDigitValue(ch: char): (n: nat)
    requires IsHexDigit(ch)
    ensures n < 16 && (IsDigit(ch) <==> n < 10 && ch as int - '0' as int == n)
  {
    if IsDigit(ch) then ch as int - '0' as int
    else if 'a' <= ch <= 'f' then ch as int - 'a' as int + 10
    else ch as int - 'A' as int + 10
  }

  /** The value of a numeral in base `radix` (10 or 16), most significant digit first. */
  function NumeralValue(s: string, radix: nat): (n: nat)
    requires radix == 10 || radix == 16
    requires radix == 16 ==> AllHexDigits(s)
    requires radix == 10 ==> AllDigits(s)
  {
    if |s| == 0 then 0
    else NumeralValue(s[..|s| - 1], radix) * radix + HexDigitValue(s[|s| - 1])
  }

  /** The lower-case digit for a value below 16. */
  function DigitChar(d: nat): (ch: char)
    requires d < 16
    ensures IsHexDigit(ch) && HexDigitValue(ch) == d && (d < 10 ==> IsDigit(ch))
    ensures !('A' <= ch <= 'F')
  {
    if d < 10 then ('0' as int + d) as char else ('a' as int + d - 10) as char
  }

  /** The shortest numeral of n in base `radix`, lower-case digits ("0" for zero). */
  function NatToNumeral(n: nat, radix: nat): (s: string)
    requires radix == 10 || radix == 16
    ensures 1 <= |s| && AllHexDigits(s) && (radix == 10 ==> AllDigits(s))
    ensures |s| > 1 ==> s[0] != '0'
    decreases n
  {
    if n < radix then [DigitChar(n)]
    else NatToNumeral(n / radix, radix) + [DigitChar(n % radix)]
  }

  /** Reading back the numeral printed for n gives n. */
  lemma {:induction false} NumeralRoundTrip(n: nat, radix: nat)
    requires radix == 10 || radix == 16
    ensures NumeralValue(NatToNumeral(n, radix), radix) == n
    decreases n
  {
    var s := NatToNumeral(n, radix);
    if n < radix {
      assert s[..|s| - 1] == [];
    } else {
      NumeralRoundTrip(n / radix, radix);
      assert s[..|s| - 1] == NatToNumeral(n / radix, radix);
    }
  }

  /** Leading zeros do not change the value of a numeral. */
  lemma {:induction false} LeadingZero(s: string, radix: nat)
    requires radix == 10 || radix == 16
    requires AllDigits(s)
    ensures NumeralValue("0" + s, radix) == NumeralValue(s, radix)
    decreases |s|
  {
    if |s| > 0 {
      var t := "0" + s;
      assert t[..|t| - 1] == "0" + s[..|s| - 1];
      LeadingZero(s[..|s| - 1], radix);
    }
  }

  /** A two-digit numeral in base 16 has the value 16 times its first digit plus its second. */
  lemma PairValue(s: string)
    requires |s| == 2 && AllHexDigits(s)
    ensures NumeralValue(s, 16) == 16 * HexDigitValue(s[0]) + HexDigitValue(s[1])
  {
    var first := s[..1];
    assert first == [s[0]];
    assert first[..0] == [];
    assert NumeralValue(first, 16) == HexDigitValue(s[0]);
    assert NumeralValue(s, 16) == NumeralValue(first, 16) * 16 + HexDigitValue(s[1]);
  }

  /** A whole number as a template literal prints it: a minus sign for negatives, then base-10 digits. */
  function IntToDecimal(n: int): (s: string)
    ensures 1 <= |s|
  {
    if n < 0 then "-" + NatToNumeral(-n, 10) else NatToNumeral(n, 10)
  }

  /** `n.toString(16)` for a whole number n: a minus sign for negatives, then lower-case hex digits. */
  function IntToHex(n: int): (s: string)
    ensures 1 <= |s|
    ensures 0 <= n ==> AllHexDigits(s)
  {
    if n < 0 then "-" + NatToNumeral(-n, 16) else NatToNumeral(n, 16)
  }

  /** `s.padStart(2, "0")`: a string shorter than 2 gets one leading zero. */
  function PadStart2(s: string): (t: string)
    ensures |s| >= 2 ==> t == s
    ensures |s| < 2 ==> t == "0" + s
  {
    if |s| >= 2 then s else "0" + s
  }

  /**
   * For 0 <= n <= 255 the padded hex text is exactly two lower-case hex
   * digits, and their value is n.
   */
  lemma ByteHex(n: int)
    requires 0 <= n <= 255
    ensures var t := PadStart2(IntToHex(n));
      |t| == 2 && AllHexDigits(t) && NumeralValue(t, 16) == n &&
      !('A' <= t[0] <= 'F') && !('A' <= t[1] <= 'F')
  {
    NumeralRoundTrip(n, 16);
    var s := IntToHex(n);
    if n < 16 {
      assert s == [DigitChar(n)];
      assert PadStart2(s) == ['0', DigitChar(n)];
      PairValue(PadStart2(s));
    } else {
      assert s == NatToNumeral(n / 16, 16) + [DigitChar(n % 16)];
      assert n / 16 < 16;
      assert s == [DigitChar(n / 16), DigitChar(n % 16)];
      PairValue(s);
    }
  }

  /** The longest prefix of s made of hex digits. */
  function HexPrefix(s: string): (d: string)
    ensures |d| <= |s| && d == s[..|d|] && AllHexDigits(d)
    ensures |d| < |s| ==> !IsHexDigit(s[|d|])
  {
    if |s| == 0 || !IsHexDigit(s[0]) then ""
    else [s[0]] + HexPrefix(s[1..])
  }

  /** s without its leading white space. */
  function TrimStart(s: string): (t: string)
    ensures |t| <= |s|
    ensures |t| > 0 ==> !IsSpace(t[0])
  {
    if |s| > 0 && IsSpace(s[0]) then TrimStart(s[1..]) else s
  }

  /** TrimStart drops exactly the leading white space: what it removes is all space, and the rest is kept. */
  lemma {:induction false} TrimStartDrops(s: string)
    ensures var k := |s| - |TrimStart(s)|;
      TrimStart(s) == s[k..] && forall j :: 0 <= j < k ==> IsSpace(s[j])
  {
    if |s| > 0 && IsSpace(s[0]) {
      TrimStartDrops(s[1..]);
      var k := |s| - |TrimStart(s)|;
      assert s[1..][k - 1..] == s[k..];
      forall j | 0 <= j < k
        ensures IsSpace(s[j])
      {
        if j > 0 {
          assert s[j] == s[1..][j - 1];
        }
      }
    }
  }

  /** The digits after an optional `0x`/`0X` prefix, read as `parseInt` does; NaN without any. */
  function Unsigned16(u: string): (x: Option<nat>)
  {
    var w := if |u| >= 2 && u[0] == '0' && (u[1] == 'x' || u[1] == 'X') then u[2..] else u;
    var d := HexPrefix(w);
    if |d| == 0 then None else Some(NumeralValue(d, 16))
  }

  /**
   * `parseInt(s, 16)`: leading white space is skipped, a sign is read, a
   * `0x`/`0X` prefix is dropped, and the longest run of hex digits that
   * follows is the value; with no digits the result is NaN (`None`).
   */
  function ParseInt16(s: string): (x: Option<int>)
  {
    var t := TrimStart(s);
    if |t| > 0 && t[0] == '-' then
      match Unsigned16(t[1..])
      case None => None
      case Some(n) => Some(-(n as int))
    else if |t| > 0 && t[0] == '+' then
      match Unsigned16(t[1..])
      case None => None
      case Some(n) => Some(n)
    else
      match Unsigned16(t)
      case None => None
      case Some(n) => Some(n)
  }

  /** A string made only of hex digits is its own longest hex prefix. */
  lemma {:induction false} HexPrefixAll(s: string)
    requires AllHexDigits(s)
    ensures HexPrefix(s) == s
    decreases |s|
  {
    if |s| > 0 {
      HexPrefixAll(s[1..]);
      assert s == [s[0]] + s[1..];
    }
  }

  /** White space is not a hex digit, so trimming leaves a string that starts with one alone. */
  lemma TrimHexStart(s: string)
    requires 0 < |s| && IsHexDigit(s[0])
    ensures TrimStart(s) == s
  {
    assert !IsSpace(s[0]);
  }

  /** A non-empty run of hex digits has no `0x` prefix, so all of it is read. */
  lemma Unsigned16Digits(s: string)
    requires 0 < |s| && AllHexDigits(s)
    ensures Unsigned16(s) == Some(NumeralValue(s, 16))
  {
    assert !(|s| >= 2 && s[0] == '0' && (s[1] == 'x' || s[1] == 'X')) by {
      if |s| >= 2 {
        assert IsHexDigit(s[1]);
      }
    }
    HexPrefixAll(s);
  }

  /**
   * On a non-empty string of hex digits (which can never start with `0x`,
   * since `x` is not a hex digit) `parseInt` returns the value of the numeral.
   */
  lemma ParseInt16Digits(s: string)
    requires 0 < |s| && AllHexDigits(s)
    ensures ParseInt16(s) == Some(NumeralValue(s, 16) as int)
  {
    assert IsHexDigit(s[0]);
    assert s[0] != '-' && s[0] != '+';
    TrimHexStart(s);
    Unsigned16Digits(s);
  }

  /** On a single character `parseInt` returns its value if it is a hex digit, and NaN otherwise. */
  lemma ParseInt16Char(ch: char)
    ensures ParseInt16([ch]) == if IsHexDigit(ch) then Some(HexDigitValue(ch) as int) else None
  {
    if IsHexDigit(ch) {
      ParseInt16Digits([ch]);
      assert [ch][..0] == [];
    } else if IsSpace(ch) {
      assert TrimStart([ch]) == [];
    } else {
      assert TrimStart([ch]) == [ch];
      assert [ch][1..] == [];
      assert HexPrefix([ch]) == [];
    }
  }

  /** `parseInt` reads a valid prefix and ignores the rest: "1g" is 1. */
  lemma ParseInt16Prefix()
    ensures ParseInt16("1g") == Some(1)
  {
    var s := "1g";
    assert !IsSpace(s[0]);
    assert TrimStart(s) == s;
    assert Unsigned16(s) == Some(1) by {
      assert s[1..] == "g";
      assert HexPrefix("g") == "";
      assert HexPrefix(s) == "1";
      assert "1"[..0] == [];
      assert NumeralValue("1", 16) == 1;
    }
  }

  /** A leading minus sign negates: "-f" is -15. */
  lemma ParseInt16Negative()
    ensures ParseInt16("-f") == Some(-15)
  {
    assert TrimStart("-f") == "-f";
    ParseInt16Digits("f");
    assert TrimStart("f") == "f";
    assert Unsigned16("f") == Some(15);
  }

  /** A bare `0x` prefix leaves no digits: "0x" is NaN. */
  lemma ParseInt16BarePrefix()
    ensures ParseInt16("0x") == None
  {
    assert TrimStart("0x") == "0x";
    assert "0x"[2..] == "";
    assert Unsigned16("0x") == None;
  }

  /**
   * On a doubled character `parseInt` returns 17 times its value if it is a
   * hex digit, and NaN otherwise.
   */
  lemma ParseInt16Pair(ch: char)
    ensures ParseInt16([ch, ch]) == if IsHexDigit(ch) then Some(17 * HexDigitValue(ch)) else None
  {
    var s := [ch, ch];
    if IsHexDigit(ch) {
      ParseInt16Digits(s);
      PairValue(s);
    } else if IsSpace(ch) {
      assert s[1..] == [ch];
      assert TrimStart([ch]) == [];
      assert TrimStart(s) == [];
    } else if ch == '-' || ch == '+' {
      assert TrimStart(s) == s;
      assert s[1..] == [ch];
      assert HexPrefix([ch]) == [];
    } else {
      assert TrimStart(s) == s;
      assert HexPrefix(s) == [];
    }
  }
}
