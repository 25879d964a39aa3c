/**
 * Lowercase hexadecimal encoding of a byte buffer, as produced by
 * `Buffer.toString('hex')`: two digits per byte, high nibble first.
 */
module Hex {

  type byte = b: nat | b < 256

  /** The sixteen characters the encoding may produce. */
  predicate IsLowerHexDigit(c: char)
  {
    ('0' <= c <= '9') || ('a' <= c <= 'f')
  }

  /** A string made only of lowercase hexadecimal digits. */
  predicate IsLowerHex(s: string)
  {
    forall i :: 0 <= i < |s| ==> IsLowerHexDigit(s[i])
  }

  /** The digit for a nibble value. */
  function Digit(n: nat): (c: char)
    requires n < 16
    ensures IsLowerHexDigit(c)
  {
    if n < 10 then (48 + n) as char else (87 + n) as char
  }

  /** The nibble value of a digit; the inverse of `Digit`. */
  function DigitValue(c: char): (n: nat)
    requires IsLowerHexDigit(c)
    ensures n < 16 && Digit(n) == c
  {
    if c <= '9' then c as nat - 48 else c as nat - 87
  }

  /** The two digits of one byte, high nibble first. */
  function ByteDigits(b: byte): (s: string)
    ensures |s| == 2 && IsLowerHex(s)
  {
    [Digit(b / 16), Digit(b % 16)]
  }

  /** `Buffer.toString('hex')`. */
  function Encode(bytes: seq<byte>): (s: string)
    ensures |s| == 2 * |bytes|
    ensures IsLowerHex(s)
  {
    if bytes == [] then [] else ByteDigits(bytes[0]) + Encode(bytes[1..])
  }

  /** Reads back a string of lowercase hexadecimal digit pairs. */
  function Decode(s: string): (bytes: seq<byte>)
    requires |s| % 2 == 0 && IsLowerHex(s)
    ensures |bytes| == |s| / 2
  {
    if s == [] then []
    else [(DigitValue(s[0]) * 16 + DigitValue(s[1])) as byte] + Decode(s[2..])
  }

  /** A digit reads back as the nibble it was written for. */
  lemma DigitRoundTrip(n: nat)
    requires n < 16
    ensures DigitValue(Digit(n)) == n
  {
  }

  /** The two digits of a byte read back as that byte. */
  lemma ByteRoundTrip(b: byte)
    ensures (DigitValue(ByteDigits(b)[0]) * 16 + DigitValue(ByteDigits(b)[1])) as byte == b
  {
    var n := b;
    DigitRoundTrip(n / 16);
    DigitRoundTrip(n % 16);
    assert (n / 16) * 16 + n % 16 == n;
  }

  /** Decoding an encoded buffer gives the buffer back. */
  lemma {:induction false} DecodeEncode(bytes: seq<byte>)
    ensures Decode(Encode(bytes)) == bytes
  {
    if bytes != [] {
      var d := ByteDigits(bytes[0]);
      var rest := Encode(bytes[1..]);
      var s := d + rest;
      assert s == Encode(bytes);
      assert s[0] == d[0] && s[1] == d[1] && s[2..] == rest;
      calc {
        Decode(s);
        [(DigitValue(d[0]) * 16 + DigitValue(d[1])) as byte] + Decode(rest);
        { ByteRoundTrip(bytes[0]); DecodeEncode(bytes[1..]); }
        [bytes[0]] + bytes[1..];
        bytes;
      }
    }
  }

  /** Different buffers give different tokens. */
  lemma EncodeInjective(a: seq<byte>, b: seq<byte>)
    requires Encode(a) == Encode(b)
    ensures a == b
  {
    DecodeEncode(a);
    DecodeEncode(b);
  }
}
