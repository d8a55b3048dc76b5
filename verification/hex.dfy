/** Node's `Buffer.toString('hex')`: two lower-case digits per byte, high
    nibble first. Used for invitation tokens. */
module Hex {
  import opened Wrappers

  newtype Byte = x: int | 0 <= x < 256

  /** `randomBytes(32)`: exactly thirty-two bytes. */
  type Bytes32 = b: seq<Byte> | |b| == 32 witness seq(32, _ => 0 as Byte)

  /** `0`-`9` and `a`-`f`. */
  predicate IsHexDigit(c: char) {
    '0' <= c <= '9' || 'a' <= c <= 'f'
  }

  /** The digit for a nibble. */
  function Digit(n: nat): (c: char)
    requires n < 16
    ensures IsHexDigit(c)
  {
    if n < 10 then ((('0' as int) + n) as char) else ((('a' as int) + n - 10) as char)
  }

  /** The value of a lower-case hex digit; the inverse of `Digit`. */
  function DigitValue(c: char): (v: Option<nat>)
    ensures v.Some? <==> IsHexDigit(c)
    ensures v.Some? ==> v.value < 16 && Digit(v.value) == c
  {
    if '0' <= c <= '9' then Some((c as int) - ('0' as int))
    else if 'a' <= c <= 'f' then Some((c as int) - ('a' as int) + 10)
    else None
  }

  function EncodeByte(b: Byte): (r: string)
    ensures |r| == 2 && IsHexDigit(r[0]) && IsHexDigit(r[1])
  {
    [Digit(b as int / 16), Digit(b as int % 16)]
  }

  function Encode(bytes: seq<Byte>): (r: string)
    ensures |r| == 2 * |bytes|
    ensures forall k :: 0 <= k < |r| ==> IsHexDigit(r[k])
  {
    if bytes == [] then [] else EncodeByte(bytes[0]) + Encode(bytes[1..])
  }

  /** The bytes an even-length string of lower-case hex digits spells. */
  function Decode(s: string): (r: Option<seq<Byte>>)
    ensures r.Some? ==> |r.value| * 2 == |s|
    ensures r.Some? <==> |s| % 2 == 0 && forall k :: 0 <= k < |s| ==> IsHexDigit(s[k])
  {
    if s == [] then Some([])
    else if |s| == 1 then None
    else
      match (DigitValue(s[0]), DigitValue(s[1]), Decode(s[2..]))
      case (Some(hi), Some(lo), Some(rest)) => Some([(hi * 16 + lo) as Byte] + rest)
      case _ => None
  }

  lemma DigitRoundTrip(n: nat)
    requires n < 16
    ensures DigitValue(Digit(n)) == Some(n)
  {
  }

  lemma DecodeEncodeByte(b: Byte)
    ensures var e := EncodeByte(b);
            DigitValue(e[0]) == Some(b as int / 16) && DigitValue(e[1]) == Some(b as int % 16)
  {
    DigitRoundTrip(b as int / 16);
    DigitRoundTrip(b as int % 16);
  }

  /** Decoding an encoding gives the bytes back. */
  lemma {:induction false} DecodeEncode(bytes: seq<Byte>)
    ensures Decode(Encode(bytes)) == Some(bytes)
  {
    if bytes != [] {
      DecodeEncode(bytes[1..]);
      DecodeEncodeByte(bytes[0]);
      var e := Encode(bytes);
      assert e[2..] == Encode(bytes[1..]);
      assert bytes == [bytes[0]] + bytes[1..];
    }
  }

  /** Encoding what a hex string decodes to gives the string back: the
      encoding is onto the even-length lower-case hex strings. */
  lemma {:induction false} EncodeDecode(s: string)
    requires Decode(s).Some?
    ensures Encode(Decode(s).value) == s
  {
    if s != [] {
      EncodeDecode(s[2..]);
      assert s == s[..2] + s[2..];
    }
  }

  /** `randomBytes(32).toString('hex')`. */
  function Token(bytes: Bytes32): (t: string)
    ensures |t| == 64
    ensures forall k :: 0 <= k < |t| ==> IsHexDigit(t[k])
    ensures Decode(t) == Some(bytes)
  {
    DecodeEncode(bytes);
    Encode(bytes)
  }
}
