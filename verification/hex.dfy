/** `Buffer.toString('hex')`: bytes written as two lower-case hexadecimal digits each. */
module Hex {
  import opened Common

  /** One byte, as `crypto.randomBytes` produces them. */
  type byte = x: nat | x < 256

  const Digits: string := "0123456789abcdef"

  predicate IsHexDigit(c: char) {
    '0' <= c <= '9' || 'a' <= c <= 'f'
  }

  /** The value of a lower-case hexadecimal digit. */
  function DigitValue(c: char): (v: nat)
    requires IsHexDigit(c)
    ensures v < 16 && Digits[v] == c
  {
    if c <= '9' then c as int - '0' as int else c as int - 'a' as int + 10
  }

  function EncodeByte(b: byte): (r: string)
    ensures |r| == 2 && IsHexDigit(r[0]) && IsHexDigit(r[1])
  {
    [Digits[b / 16], Digits[b % 16]]
  }

  function Encode(bytes: seq<byte>): (r: string)
    ensures |r| == 2 * |bytes|
    ensures forall i :: 0 <= i < |r| ==> IsHexDigit(r[i])
  {
    if bytes == [] then [] else EncodeByte(bytes[0]) + Encode(bytes[1..])
  }

  /** Reads back a string of lower-case hexadecimal digit pairs; None for anything else. */
  function Decode(s: string): Option<seq<byte>>
  {
    if s == [] then Some([])
    else if |s| < 2 || !IsHexDigit(s[0]) || !IsHexDigit(s[1]) then None
    else match Decode(s[2..])
      case None => None
      case Some(rest) => Some([DigitValue(s[0]) * 16 + DigitValue(s[1])] + rest)
  }

  /** The hexadecimal text of a byte string reads back as those bytes. */
  lemma {:induction false} DecodeEncode(bytes: seq<byte>)
    ensures Decode(Encode(bytes)) == Some(bytes)
  {
    if bytes != [] {
      var s := Encode(bytes);
      assert s == EncodeByte(bytes[0]) + Encode(bytes[1..]);
      DecodeEncode(bytes[1..]);
      DecodeStep(EncodeByte(bytes[0]), Encode(bytes[1..]), bytes[1..]);
      ByteRoundTrip(bytes[0]);
      assert [bytes[0]] + bytes[1..] == bytes;
    }
  }

  lemma DecodeStep(pair: string, rest: string, tail: seq<byte>)
    requires |pair| == 2 && IsHexDigit(pair[0]) && IsHexDigit(pair[1])
    requires Decode(rest) == Some(tail)
    ensures Decode(pair + rest) == Some([DigitValue(pair[0]) * 16 + DigitValue(pair[1])] + tail)
  {
    assert (pair + rest)[2..] == rest;
  }

  lemma ByteRoundTrip(b: byte)
    ensures DigitValue(EncodeByte(b)[0]) * 16 + DigitValue(EncodeByte(b)[1]) == b
  {
    DigitRoundTrip(b / 16);
    DigitRoundTrip(b % 16);
  }

  lemma DigitRoundTrip(n: nat)
    requires n < 16
    ensures IsHexDigit(Digits[n]) && DigitValue(Digits[n]) == n
  {
    if n < 10 {
      assert Digits[n] as int == '0' as int + n;
    } else {
      assert Digits[n] as int == 'a' as int + n - 10;
    }
  }

  /** Distinct byte strings have distinct hexadecimal texts. */
  lemma EncodeInjective(a: seq<byte>, b: seq<byte>)
    requires Encode(a) == Encode(b)
    ensures a == b
  {
    DecodeEncode(a);
    DecodeEncode(b);
  }
}
