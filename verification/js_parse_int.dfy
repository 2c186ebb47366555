/**
 * JavaScript's `parseInt(string, 16)` as the ECMAScript standard defines it
 * (section 19.2.5 of ECMA-262): leading white space is skipped, one sign is
 * read, a `0x`/`0X` prefix is dropped, and the longest run of hex digits that
 * follows is read as a number; with no digit the result is `NaN`.
 */
module JsParseInt {
  import opened BufferUtils
  import opened NodeBuffer

  /** A JavaScript number as `parseInt` can produce it. */
  datatype Number = Int(value: int) | NaN

  /** ECMAScript WhiteSpace and LineTerminator code points. */
  predicate IsJsWhiteSpace(c: char)
  {
    || c == '\t' || c == '\U{000B}' || c == '\U{000C}' || c == ' ' || c == '\U{00A0}' || c == '\U{FEFF}'
    || c == '\n' || c == '\r' || c == '\U{2028}' || c == '\U{2029}'
    || c == '\U{1680}' || ('\U{2000}' <= c <= '\U{200A}') || c == '\U{202F}' || c == '\U{205F}' || c == '\U{3000}'
  }

  /** The string without its leading white space. */
  function TrimStart(s: string): (t: string)
    ensures |t| <= |s| && t == s[|s| - |t|..]
    ensures forall i :: 0 <= i < |s| - |t| ==> IsJsWhiteSpace(s[i])
    ensures t != [] ==> !IsJsWhiteSpace(t[0])
  {
    if s != [] && IsJsWhiteSpace(s[0]) then
      var t := TrimStart(s[1..]);
      assert s[1..][|s| - 1 - |t|..] == s[|s| - |t|..];
      assert forall i :: 1 <= i < |s| ==> s[i] == s[1..][i - 1];
      t
    else s
  }

  predicate AllHexDigits(z: string)
  {
    forall i :: 0 <= i < |z| ==> IsHexDigit(z[i])
  }

  /** The longest prefix made only of hex digits. */
  function HexDigitsPrefix(s: string): (z: string)
    ensures z <= s && AllHexDigits(z)
    ensures |z| < |s| ==> !IsHexDigit(s[|z|])
  {
    if s != [] && IsHexDigit(s[0]) then [s[0]] + HexDigitsPrefix(s[1..]) else []
  }

  /** The value of a run of hex digits, most significant first, read onto `acc`. */
  function HexValueFrom(acc: nat, z: string): nat
    requires AllHexDigits(z)
    decreases z
  {
    if z == [] then acc else HexValueFrom(16 * acc + HexDigitValue(z[0]), z[1..])
  }

  /** The value of a run of hex digits. */
  function HexValue(z: string): nat
    requires AllHexDigits(z)
  {
    HexValueFrom(0, z)
  }

  /** One leading `-` makes the result negative. */
  predicate Negative(t: string)
  {
    |t| > 0 && t[0] == '-'
  }

  /** The string after one leading sign character, if any. */
  function DropSign(t: string): string
  {
    if |t| > 0 && (t[0] == '-' || t[0] == '+') then t[1..] else t
  }

  /** The string after a leading `0x` or `0X`, if any. */
  function DropHexPrefix(u: string): string
  {
    if |u| >= 2 && u[0] == '0' && (u[1] == 'x' || u[1] == 'X') then u[2..] else u
  }

  /**
   * `parseInt(s, 16)`: a number exactly when a hex digit follows the white
   * space, the optional sign and the optional `0x`; negative only after `-`.
   */
  function ParseInt16(s: string): (r: Number)
    ensures var u := DropHexPrefix(DropSign(TrimStart(s)));
      r.Int? <==> u != [] && IsHexDigit(u[0])
    ensures r.Int? && r.value < 0 ==> Negative(TrimStart(s))
    ensures r.Int? && !Negative(TrimStart(s)) ==> r.value >= 0
  {
    var t := TrimStart(s);
    var z := HexDigitsPrefix(DropHexPrefix(DropSign(t)));
    if z == [] then NaN
    else if Negative(t) then Int(-(HexValue(z) as int))
    else Int(HexValue(z))
  }

  /** The digit run stops exactly where the digits stop. */
  lemma {:induction false} HexDigitsPrefixOf(z: string, rest: string)
    requires AllHexDigits(z)
    requires rest == [] || !IsHexDigit(rest[0])
    ensures HexDigitsPrefix(z + rest) == z
  {
    if z != [] {
      assert (z + rest)[0] == z[0];
      assert (z + rest)[1..] == z[1..] + rest;
      HexDigitsPrefixOf(z[1..], rest);
    } else {
      assert z + rest == rest;
    }
  }

  /** A run of digits, then something that is not a digit. */
  ghost predicate DigitRun(z: string, rest: string)
  {
    z != [] && AllHexDigits(z) && (rest == [] || !IsHexDigit(rest[0]))
  }

  /** A string that starts with anything but white space is not trimmed. */
  lemma TrimStartNoSpace(s: string)
    requires s != [] && !IsJsWhiteSpace(s[0])
    ensures TrimStart(s) == s
  {
  }

  /** A string that starts with a hex digit has no white space or sign to skip. */
  lemma NoWhiteSpaceNoSign(d: string)
    requires d != [] && IsHexDigit(d[0])
    ensures TrimStart(d) == d && !Negative(d) && DropSign(d) == d
  {
    TrimStartNoSpace(d);
  }

  /** The result once the digit run after white space, sign and prefix is known. */
  lemma ParseInt16Of(s: string, z: string)
    requires z != [] && HexDigitsPrefix(DropHexPrefix(DropSign(TrimStart(s)))) == z
    ensures AllHexDigits(z)
    ensures ParseInt16(s) == Int(if Negative(TrimStart(s)) then -(HexValue(z) as int) else HexValue(z))
  {
  }

  /**
   * Digits with no sign and no prefix are read up to the first non-digit
   * (unless the digits are a lone `0` followed by `x`, which reads as a prefix).
   */
  lemma ParseIntDigits(z: string, rest: string)
    requires DigitRun(z, rest)
    requires !(|z| == 1 && z[0] == '0' && rest != [] && (rest[0] == 'x' || rest[0] == 'X'))
    ensures ParseInt16(z + rest) == Int(HexValue(z))
  {
    var d := z + rest;
    HexDigitsPrefixOf(z, rest);
    assert d[0] == z[0] && IsHexDigit(z[0]);
    if |z| >= 2 {
      assert d[1] == z[1] && IsHexDigit(z[1]);
    } else {
      assert rest == [] || d[1] == rest[0];
    }
    NoWhiteSpaceNoSign(d);
    assert DropHexPrefix(d) == d;
  }

  /** A `0x` or `0X` prefix is skipped before the digits. */
  lemma ParseIntPrefixed(x: char, z: string, rest: string)
    requires x == 'x' || x == 'X'
    requires DigitRun(z, rest)
    ensures ParseInt16(['0', x] + (z + rest)) == Int(HexValue(z))
  {
    var d := z + rest;
    HexDigitsPrefixOf(z, rest);
    var s := ['0', x] + d;
    assert s[0] == '0' && s[1] == x;
    NoWhiteSpaceNoSign(s);
    assert s[2..] == d;
    assert DropHexPrefix(s) == d;
  }

  /** A `0x`-prefixed run of hex digits. */
  lemma ParseIntHexString(z: string)
    requires z != [] && AllHexDigits(z)
    ensures ParseInt16("0x" + z) == Int(HexValue(z))
  {
    assert z + [] == z;
    ParseIntPrefixed('x', z, []);
  }

  /** Nothing, `0x` or `0X`. */
  predicate HexPrefixOrNone(p: string)
  {
    p == [] || (|p| == 2 && p[0] == '0' && (p[1] == 'x' || p[1] == 'X'))
  }

  /**
   * After a sign, an optional `0x`/`0X` prefix is skipped before the digits
   * (with no prefix, a lone `0` followed by `x` would itself read as one).
   */
  lemma DropHexPrefixOf(p: string, z: string, rest: string)
    requires HexPrefixOrNone(p)
    requires DigitRun(z, rest)
    requires p == [] ==> !(|z| == 1 && z[0] == '0' && rest != [] && (rest[0] == 'x' || rest[0] == 'X'))
    ensures DropHexPrefix(p + (z + rest)) == z + rest
  {
    var d := z + rest;
    if p == [] {
      assert p + d == d && d[0] == z[0];
      if |z| >= 2 {
        assert d[1] == z[1] && IsHexDigit(z[1]);
      } else {
        assert rest == [] || d[1] == rest[0];
      }
    } else {
      var u := p + d;
      assert u[0] == '0' && (u[1] == 'x' || u[1] == 'X') && u[2..] == d;
    }
  }

  /** A leading sign is not white space, and it is the one sign that is read. */
  lemma SignStages(c: char, u: string)
    requires c == '-' || c == '+'
    ensures TrimStart([c] + u) == [c] + u
    ensures Negative([c] + u) <==> c == '-'
    ensures DropSign([c] + u) == u
  {
    var s := [c] + u;
    assert s[0] == c && s[1..] == u;
    TrimStartNoSpace(s);
  }

  /** One `-` or `+` before the optional prefix gives the value with that sign. */
  lemma ParseIntSigned(c: char, p: string, z: string, rest: string)
    requires c == '-' || c == '+'
    requires HexPrefixOrNone(p)
    requires DigitRun(z, rest)
    requires p == [] ==> !(|z| == 1 && z[0] == '0' && rest != [] && (rest[0] == 'x' || rest[0] == 'X'))
    ensures ParseInt16([c] + p + (z + rest)) == Int(if c == '-' then -(HexValue(z) as int) else HexValue(z))
  {
    assert [c] + p + (z + rest) == [c] + (p + (z + rest));
    SignStages(c, p + (z + rest));
    DropHexPrefixOf(p, z, rest);
    HexDigitsPrefixOf(z, rest);
    ParseInt16Of([c] + (p + (z + rest)), z);
  }

  /** A byte string read as an unsigned big-endian number onto `acc`. */
  function BigEndianFrom(acc: nat, b: seq<Byte>): nat
    decreases b
  {
    if b == [] then acc else BigEndianFrom(256 * acc + b[0], b[1..])
  }

  /** A byte string read as an unsigned big-endian number. */
  function BigEndian(b: seq<Byte>): nat
  {
    BigEndianFrom(0, b)
  }

  /** Reading the hex of a buffer digit by digit reads it byte by byte. */
  lemma {:induction false} HexValueFromToHex(acc: nat, b: seq<Byte>)
    ensures AllHexDigits(ToHex(b)) && HexValueFrom(acc, ToHex(b)) == BigEndianFrom(acc, b)
    decreases b
  {
    ToHexDigits(b);
    if b != [] {
      var x := b[0];
      var hi, lo, rest := HexChar(x / 16), HexChar(x % 16), ToHex(b[1..]);
      var s := ToHex(b);
      assert s == [hi, lo] + rest;
      assert s[1..] == [lo] + rest && s[1..][1..] == rest;
      ToHexDigits(b[1..]);
      assert 16 * (16 * acc + x / 16) + x % 16 == 256 * acc + x;
      HexValueFromToHex(256 * acc + x, b[1..]);
    }
  }

  /** Reading the hex of a buffer gives its big-endian value. */
  lemma HexValueOfToHex(b: seq<Byte>)
    ensures AllHexDigits(ToHex(b)) && HexValue(ToHex(b)) == BigEndian(b)
  {
    HexValueFromToHex(0, b);
  }

  /** An encoding never starts with a lone `0` followed by `x`. */
  lemma HexChar0x(b: seq<Byte>)
    requires b != []
    ensures IsHexDigit(ToHex(b)[1])
  {
  }

  /** `parseInt(buf.toString('hex'), 16)` recovers the big-endian value of the buffer. */
  lemma ParseIntOfToHex(b: seq<Byte>)
    requires b != []
    ensures ParseInt16(ToHex(b)) == Int(BigEndian(b))
    ensures ParseInt16("0x" + ToHex(b)) == Int(BigEndian(b))
  {
    HexValueOfToHex(b);
    var h := ToHex(b);
    assert h != [];
    HexChar0x(b);
    ParseIntDigits(h, "");
    ParseIntPrefixed('x', h, "");
    assert h + "" == h;
  }

  /** With no digit after the optional sign and prefix the result is `NaN`. */
  lemma ParseIntNoDigits(rest: string)
    requires rest == [] || !(IsHexDigit(rest[0]) || rest[0] == '+' || rest[0] == '-' || IsJsWhiteSpace(rest[0]))
    ensures ParseInt16(rest) == NaN
    ensures ParseInt16(['0', 'x'] + rest) == NaN
  {
    if rest != [] {
      TrimStartNoSpace(rest);
    }
    assert DropSign(rest) == rest;
    assert DropHexPrefix(rest) == rest;
    var s := ['0', 'x'] + rest;
    assert s[0] == '0' && s[1] == 'x' && s[2..] == rest;
    NoWhiteSpaceNoSign(s);
    assert DropHexPrefix(s) == rest;
  }

  /** Reading stops at the first non-digit: `parseInt("0x12zz", 16)` is 18. */
  lemma ParseIntStopsAtNonDigit()
    ensures ParseInt16(['0', 'x'] + ("12" + "zz")) == Int(18)
  {
    assert AllHexDigits("12") && HexValue("12") == 18;
    assert DigitRun("12", "zz");
    ParseIntPrefixed('x', "12", "zz");
  }

  /** The digits of the Zcash Overwinter version group id. */
  lemma OverwinterDigits()
    ensures AllHexDigits("03C48270") && HexValue("03C48270") == 63210096
  {
  }

  /** The Zcash Overwinter version group id: `parseInt("0x03C48270", 16)` is 63210096. */
  lemma ParseIntOverwinterGroupId()
    ensures ParseInt16("0x" + "03C48270") == Int(63210096)
  {
    OverwinterDigits();
    ParseIntHexString("03C48270");
  }
}
