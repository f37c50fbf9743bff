/**
  app/common.js: the info-hash pre-image written as one template with the
  key prefixes spelled out, and the piece-hash size passed in.
 */
module Common {
  import opened Bytes
  import opened Text
  import UtilsEncoder
  import UtilsTorrent

  /** `HASH_LENGTH`: the size of one SHA-1 piece hash. */
  const HashLength: int := 20

  /**
    `${numberOfPieces * hashLength}` with `numberOfPieces = n / hashLength`,
    both computed in doubles. For 0 it is `NaN * 0`, written "NaN". For
    `HASH_LENGTH` (20) dividing and multiplying back gives `n` exactly, so
    the text is the decimal of `n`. For other non-zero lengths the
    rounding can leave a fraction that this model does not reproduce: it
    writes the decimal of `n` there too.
   */
  function ScaledLength(n: nat, hashLength: int): string
  {
    if hashLength == 0 then "NaN" else Decimal(n)
  }

  /** The template text before the raw pieces bytes. */
  function PreImageText(info: UtilsTorrent.Info, hashLength: int): string
  {
    "d6:lengthi" + Decimal(info.length) + "e4:name" + Decimal(|info.name|) + ":" + info.name
    + "12:piece lengthi" + Decimal(info.pieceLength) + "e6:pieces"
    + ScaledLength(|info.pieces|, hashLength) + ":"
  }

  /** The bytes `calculateInfoHash(info, hashLength)` hands to SHA-1. */
  function InfoPreImage(info: UtilsTorrent.Info, hashLength: int): seq<byte>
  {
    Latin1(PreImageText(info, hashLength)) + info.pieces + Latin1("e")
  }

  /** `calculateInfoHash(info, hashLength, encoding)`. */
  function CalculateInfoHash(sha1: seq<byte> -> seq<byte>, info: UtilsTorrent.Info, hashLength: int,
                             encoding: UtilsTorrent.Encoding): string
  {
    UtilsTorrent.Render(sha1(InfoPreImage(info, hashLength)), encoding)
  }

  /** The literal prefixes 6, 4, 12 and 6 are the lengths of the keys they precede. */
  lemma LiteralKeyPrefixes()
    ensures UtilsEncoder.EncodeString("length") == "6:length"
    ensures UtilsEncoder.EncodeString("name") == "4:name"
    ensures UtilsEncoder.EncodeString("piece length") == "12:piece length"
    ensures UtilsEncoder.EncodeString("pieces") == "6:pieces"
  {
    assert Decimal(6) == "6" by { assert Digits(6) == [DigitChar(6)]; }
    assert Decimal(4) == "4" by { assert Digits(4) == [DigitChar(4)]; }
    assert Decimal(12) == "12" by {
      assert Digits(1) == [DigitChar(1)];
      assert Digits(12) == Digits(1) + [DigitChar(2)];
    }
  }

  /** With `HASH_LENGTH`, the declared pieces length reads back as the number of pieces bytes. */
  lemma DeclaredLengthIsPiecesLength(n: nat)
    ensures Number(ScaledLength(n, HashLength)) == Int(n)
  {
    NumberOfDecimal(n);
  }

  /** A zero hash length writes "NaN" where the pieces length belongs, which is not a number. */
  lemma ZeroHashLengthWritesNaN(n: nat)
    ensures ScaledLength(n, 0) == "NaN"
    ensures Number(ScaledLength(n, 0)) == NotInteger
  {
    assert TrimStart("NaN") == "NaN";
    assert TrimEnd("NaN") == "NaN";
    assert !IsDigit('N');
  }

  /**
    With `HASH_LENGTH`, the pre-image is byte-for-byte the one
    app/utils/torrent.js builds from the same fields.
   */
  lemma SameAsUtilsTorrent(info: UtilsTorrent.Info)
    ensures InfoPreImage(info, HashLength) == UtilsTorrent.InfoPreImage(info)
  {
    LiteralKeyPrefixes();
    Regroup("d", "6:length", "i", Decimal(info.length), "e", "4:name", Decimal(|info.name|), ":",
      info.name, "12:piece length", Decimal(info.pieceLength), "6:pieces", Decimal(|info.pieces|));
    assert "d6:lengthi" == "d" + "6:length" + "i";
    assert "e4:name" == "e" + "4:name";
    assert "12:piece lengthi" == "12:piece length" + "i";
    assert "e6:pieces" == "e" + "6:pieces";
  }

  lemma Regroup(d: string, l6: string, i: string, a: string, e: string, n4: string, n: string,
                c: string, nm: string, p12: string, p: string, s6: string, k: string)
    ensures d + (l6 + (i + a + e)) + (n4 + (n + c + nm)) + (p12 + (i + p + e)) + (s6 + k + c)
         == (d + l6 + i) + a + (e + n4) + n + c + nm + (p12 + i) + p + (e + s6) + k + c
  {
  }

  /**
    `info` run with `HASH_LENGTH` and the handshake command's
    `calculateInfoHash` of app/utils/torrent.js report the same info hash,
    in either encoding.
   */
  lemma SameInfoHashAsUtilsTorrent(sha1: seq<byte> -> seq<byte>, info: UtilsTorrent.Info,
                                   encoding: UtilsTorrent.Encoding)
    ensures CalculateInfoHash(sha1, info, HashLength, encoding) == UtilsTorrent.CalculateInfoHash(sha1, info, encoding)
  {
    SameAsUtilsTorrent(info);
  }
}
