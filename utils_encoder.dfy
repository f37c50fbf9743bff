/**
  The byte-level bencode helpers of app/utils/encoder.js: one template or
  concatenation each. `sha1Hash` is not part of this model; the modules that
  hash take SHA-1 as a parameter.
 */
module UtilsEncoder {
  import opened Bytes
  import opened Text
  import Encoder
  import Bencode

  /** `encodeBuffer(value)`: the ASCII decimal length and a colon, then the raw bytes. */
  function EncodeBuffer(value: seq<byte>): seq<byte>
  {
    Latin1(Decimal(|value|) + ":") + value
  }

  /** `encodeString(value)`. */
  function EncodeString(value: string): string
  {
    Decimal(|value|) + ":" + value
  }

  /** `encodeInteger(value)`. */
  function EncodeInteger(value: int): string
  {
    "i" + Decimal(value) + "e"
  }

  /** The encoding is the length's digits, one colon, and the bytes themselves, untouched at the end. */
  lemma EncodeBufferLayout(value: seq<byte>)
    ensures |EncodeBuffer(value)| == |Decimal(|value|)| + 1 + |value|
    ensures EncodeBuffer(value)[|Decimal(|value|)|] == ':' as int
    ensures EncodeBuffer(value)[|Decimal(|value|)| + 1..] == value
  {
  }

  /** `encodeBuffer` writes the canonical bencoding of a byte string. */
  lemma EncodeBufferIsBencode(value: seq<byte>)
    ensures EncodeBuffer(value) == Bencode.Encode(Bencode.BStr(value))
  {
  }

  /** Reading back what `encodeBuffer` wrote gives the same bytes and leaves whatever followed. */
  lemma EncodeBufferRoundTrip(value: seq<byte>, rest: seq<byte>)
    ensures Bencode.ReadBytes(EncodeBuffer(value) + rest) == Some((value, rest))
  {
    Bencode.ReadEncodedBytes(value, rest);
  }

  /** `encodeString` and `encodeInteger` agree with the recursive `encode` of app/encoder.js. */
  lemma AgreesWithEncode(s: string, n: int)
    ensures Encoder.Encode(Encoder.JStr(s)) == Ok(EncodeString(s))
    ensures Encoder.Encode(Encoder.JInt(n)) == Ok(EncodeInteger(n))
  {
  }

  /** What `encodeString` writes reads back as that string. */
  lemma EncodeStringRoundTrip(s: string, rest: string)
    ensures Encoder.ReadValue(EncodeString(s) + rest) == Some((Encoder.JStr(s), rest))
  {
    Encoder.ReadValueOfString(s, rest);
  }

  /** What `encodeInteger` writes reads back as that integer. */
  lemma EncodeIntegerRoundTrip(n: int, rest: string)
    ensures Encoder.ReadValue(EncodeInteger(n) + rest) == Some((Encoder.JInt(n), rest))
  {
    Encoder.ReadValueOfInteger(n, rest);
  }

  /** On text, the byte and the text helpers write the same thing. */
  lemma EncodeBufferOfText(s: string)
    ensures EncodeBuffer(Latin1(s)) == Latin1(EncodeString(s))
  {
    Latin1Append(Decimal(|s|) + ":", s);
  }
}
