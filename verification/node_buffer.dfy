/**
 * The parts of Node's `Buffer` that refTx.js calls: `toString('hex')` and
 * `slice(start)`.  A strict hex decoder is defined beside the encoder so that
 * the encoding can be shown to lose nothing.
 */
module NodeBuffer {
  import opened Wrappers
  import opened BufferUtils

  /** A character accepted as a base-16 digit (either case). */
  predicate IsHexDigit(c: char)
  {
    ('0' <= c <= '9') || ('a' <= c <= 'f') || ('A' <= c <= 'F')
  }

  /** The value of a base-16 digit. */
  function HexDigitValue(c: char): (v: nat)
    requires IsHexDigit(c)
    ensures v < 16
  {
    if '0' <= c <= '9' then c as int - '0' as int
    else if 'a' <= c <= 'f' then c as int - 'a' as int + 10
    else c as int - 'A' as int + 10
  }

  /** The lower-case digit that `toString('hex')` writes for a nibble. */
  function HexChar(n: nat): (c: char)
    requires n < 16
    ensures IsHexDigit(c) && HexDigitValue(c) == n
    ensures !('A' <= c <= 'Z')
  {
    if n < 10 then ('0' as int + n) as char else ('a' as int + n - 10) as char
  }

  /** `buf.toString('hex')`: two lower-case digits per byte, high nibble first. */
  function ToHex(b: seq<Byte>): (r: string)
    ensures |r| == 2 * |b|
    ensures forall i :: 0 <= i < |b| ==> r[2 * i] == HexChar(b[i] / 16) && r[2 * i + 1] == HexChar(b[i] % 16)
  {
    if b == [] then "" else [HexChar(b[0] / 16), HexChar(b[0] % 16)] + ToHex(b[1..])
  }

  /** Every character of an encoding is a hex digit. */
  lemma ToHexDigits(b: seq<Byte>)
    ensures forall j :: 0 <= j < |ToHex(b)| ==> IsHexDigit(ToHex(b)[j])
  {
    var r := ToHex(b);
    forall j | 0 <= j < |r| ensures IsHexDigit(r[j]) {
      var i := j / 2;
      assert j == 2 * i || j == 2 * i + 1;
      assert r[2 * i] == HexChar(b[i] / 16) && r[2 * i + 1] == HexChar(b[i] % 16);
    }
  }

  /** Strict decoding of pairs of hex digits; `None` on odd length or a non-digit. */
  function FromHex(s: string): (r: Option<seq<Byte>>)
    ensures r.Some? ==> 2 * |r.value| == |s|
  {
    if s == [] then Some([])
    else if |s| < 2 || !IsHexDigit(s[0]) || !IsHexDigit(s[1]) then None
    else match FromHex(s[2..])
      case None => None
      case Some(rest) => Some([16 * HexDigitValue(s[0]) + HexDigitValue(s[1])] + rest)
  }

  /** Decoding a pair of digits in front of the rest of the string. */
  lemma FromHexCons(hi: char, lo: char, t: string)
    requires IsHexDigit(hi) && IsHexDigit(lo)
    ensures FromHex([hi, lo] + t)
         == if FromHex(t).Some? then Some([16 * HexDigitValue(hi) + HexDigitValue(lo)] + FromHex(t).value) else None
  {
    var s := [hi, lo] + t;
    assert s[0] == hi && s[1] == lo && s[2..] == t;
  }

  /** The two digits written for a byte read back as that byte. */
  lemma HexPairValue(x: Byte)
    ensures 16 * HexDigitValue(HexChar(x / 16)) + HexDigitValue(HexChar(x % 16)) == x
  {
  }

  /** Decoding undoes `toString('hex')`. */
  lemma {:induction false} FromHexToHex(b: seq<Byte>)
    ensures FromHex(ToHex(b)) == Some(b)
  {
    if b != [] {
      var hi, lo, t := HexChar(b[0] / 16), HexChar(b[0] % 16), ToHex(b[1..]);
      assert ToHex(b) == [hi, lo] + t;
      assert FromHex(t) == Some(b[1..]) by {
        FromHexToHex(b[1..]);
      }
      assert FromHex([hi, lo] + t) == Some([b[0]] + b[1..]) by {
        FromHexCons(hi, lo, t);
        HexPairValue(b[0]);
      }
      assert b == [b[0]] + b[1..];
    }
  }

  /** Two buffers with the same hex string are the same buffer. */
  lemma ToHexInjective(a: seq<Byte>, b: seq<Byte>)
    requires ToHex(a) == ToHex(b)
    ensures a == b
  {
    FromHexToHex(a);
    FromHexToHex(b);
  }

  /**
   * `buf.slice(start)`: a negative start counts back from the end, and the
   * start is clamped to the buffer, so the result is always a suffix.
   */
  function SliceFrom<T>(buf: seq<T>, start: int): (r: seq<T>)
    ensures |r| <= |buf| && r == buf[|buf| - |r|..]
    ensures 0 <= start <= |buf| ==> |r| == |buf| - start
    ensures -|buf| <= start < 0 ==> |r| == -start
    ensures start < -|buf| ==> r == buf
    ensures |buf| < start ==> r == []
  {
    var from := if start < 0 then (if |buf| + start > 0 then |buf| + start else 0)
                else if start < |buf| then start else |buf|;
    buf[from..]
  }
}
