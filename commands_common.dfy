/**
  app/commands/common.js: random strings for peer ids, and the info-hash
  pre-image as four literal-prefixed template pieces.
 */
module CommandsCommon {
  import opened Bytes
  import opened Text
  import UtilsTorrent
  import Common

  /**
    `generateRandomString(length)`: one character of
    'A'..'Z', '0'..'9' per turn, picked by `picks[i]`.
   */
  method GenerateRandomString(length: int, picks: seq<int>) returns (result: string)
    requires UtilsTorrent.ValidPicks(picks) && length <= |picks|
    ensures result == UtilsTorrent.PeerIdOf(picks[..Max(length, 0)])
    ensures |result| == Max(length, 0)
    ensures forall i :: 0 <= i < |result| ==> UtilsTorrent.IsPeerIdChar(result[i])
  {
    result := "";
    var i := 0;
    while i < length
      invariant 0 <= i <= Max(length, 0)
      invariant result == UtilsTorrent.PeerIdOf(picks[..i])
    {
      result := result + [UtilsTorrent.Characters[picks[i]]];
      i := i + 1;
    }
    UtilsTorrent.PeerIdShape(picks[..i]);
  }

  /** The four template pieces before the raw pieces bytes. */
  function PreImageText(info: UtilsTorrent.Info): string
  {
    ("d6:lengthi" + Decimal(info.length) + "e")
    + ("4:name" + Decimal(|info.name|) + ":" + info.name)
    + ("12:piece lengthi" + Decimal(info.pieceLength) + "e")
    + ("6:pieces" + Decimal(|info.pieces|) + ":")
  }

  function InfoPreImage(info: UtilsTorrent.Info): seq<byte>
  {
    Latin1(PreImageText(info)) + info.pieces + Latin1("e")
  }

  /** `calculateInfoHash(info, encoding)`. */
  function CalculateInfoHash(sha1: seq<byte> -> seq<byte>, info: UtilsTorrent.Info,
                             encoding: UtilsTorrent.Encoding): string
  {
    UtilsTorrent.Render(sha1(InfoPreImage(info)), encoding)
  }

  /** Byte-identical to the pre-image of app/utils/torrent.js, and of app/common.js with `HASH_LENGTH`. */
  lemma SameAsOtherCopies(info: UtilsTorrent.Info)
    ensures InfoPreImage(info) == UtilsTorrent.InfoPreImage(info)
    ensures InfoPreImage(info) == Common.InfoPreImage(info, Common.HashLength)
  {
    Common.SameAsUtilsTorrent(info);
    Regroup("d6:lengthi", Decimal(info.length), "e4:name", Decimal(|info.name|), ":", info.name,
      "12:piece lengthi", Decimal(info.pieceLength), "e6:pieces", Decimal(|info.pieces|));
    assert "e4:name" == "e" + "4:name";
    assert "e6:pieces" == "e" + "6:pieces";
  }

  lemma Regroup(a: string, l: string, b: string, n: string, c: string, nm: string,
                d: string, p: string, e: string, k: string)
    requires b == "e" + "4:name" && e == "e" + "6:pieces"
    ensures (a + l + "e") + ("4:name" + n + c + nm) + (d + p + "e") + ("6:pieces" + k + c)
         == a + l + b + n + c + nm + d + p + e + k + c
  {
  }
}
