/**
 * Octets and the text/bytes codec. The source calls `bytes.decode()` and
 * `str.encode()` on protocol text; the model uses the Latin-1 identity between
 * a byte and the character with the same code, which agrees with UTF-8 on the
 * ASCII text HTTP framing is made of.
 */
module Bytes {

  newtype byte = x: int | 0 <= x < 256

  /** `bytes.decode()`: one character per octet. */
  function Decode(b: seq<byte>): (s: string)
    ensures |s| == |b|
    ensures forall i :: 0 <= i < |b| ==> s[i] as int == b[i] as int
  {
    seq(|b|, i requires 0 <= i < |b| => b[i] as int as char)
  }

  /** `str.encode()`: one octet per character (characters above 255 are outside the model). */
  function Encode(s: string): (b: seq<byte>)
    ensures |b| == |s|
    ensures forall i :: 0 <= i < |s| ==> b[i] as int == s[i] as int % 256
  {
    seq(|s|, i requires 0 <= i < |s| => (s[i] as int % 256) as byte)
  }

  const CR: byte := 13
  const LF: byte := 10
  const CRLF: seq<byte> := [13, 10]
  const CRLFCRLF: seq<byte> := [13, 10, 13, 10]

  lemma EncodeDecode(b: seq<byte>)
    ensures Encode(Decode(b)) == b
  {
  }

  /** Text every character of which fits in one octet. */
  predicate IsOctetText(s: string)
  {
    forall i :: 0 <= i < |s| ==> s[i] as int < 256
  }

  /** Octet text survives encoding and decoding. */
  lemma DecodeEncode(s: string)
    requires IsOctetText(s)
    ensures Decode(Encode(s)) == s
  {
    assert forall i :: 0 <= i < |s| ==> Decode(Encode(s))[i] as int == s[i] as int;
  }

  lemma DecodeConcat(a: seq<byte>, b: seq<byte>)
    ensures Decode(a + b) == Decode(a) + Decode(b)
  {
  }

  lemma EncodeConcat(a: string, b: string)
    ensures Encode(a + b) == Encode(a) + Encode(b)
  {
  }

  lemma DecodeSlice(b: seq<byte>, i: nat, j: nat)
    requires i <= j <= |b|
    ensures Decode(b[i..j]) == Decode(b)[i..j]
  {
  }

  lemma DecodePrefix(b: seq<byte>, i: nat)
    requires i <= |b|
    ensures Decode(b[..i]) == Decode(b)[..i]
  {
  }

  lemma DecodeSuffix(b: seq<byte>, i: nat)
    requires i <= |b|
    ensures Decode(b[i..]) == Decode(b)[i..]
  {
  }
}
