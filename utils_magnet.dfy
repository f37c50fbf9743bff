/**
  app/utils/magnet.js: the handshake a magnet download opens with. It is
  the 68-byte handshake of BEP 3 with the extension bit of BEP 10 set
  (0x10 in reserved byte 25), the info hash written from its hex text and
  a fresh random peer id. `Math.random` is replaced by the indices it
  picks.
 */
module UtilsMagnet {
  import opened Bytes
  import opened Text
  import PeerWire
  import UtilsTorrent

  /** Reserved bytes 20..27: all zero but byte 25, which announces the extension protocol. */
  const ExtensionReserved: seq<byte> := [0, 0, 0, 0, 0, 0x10, 0, 0]

  /** The request for an info hash given as text and a peer id. */
  function MagnetRequest(infoHash: string, peerId: string): (r: seq<byte>)
    ensures |r| == PeerWire.HandshakeLength
  {
    PeerWire.Request(ExtensionReserved, HexDecodePrefix(infoHash), Latin1(peerId))
  }

  /**
    `createMagnetHandshakeRequest(infoHash)`: a zero-filled 68-byte buffer
    written field by field; `picks` are the indices `generatePeerId`
    draws for the 20-character peer id.
   */
  method CreateMagnetHandshakeRequest(infoHash: string, picks: seq<int>) returns (buffer: array<byte>)
    requires UtilsTorrent.ValidPicks(picks) && |picks| >= UtilsTorrent.DefaultPeerIdLength
    ensures fresh(buffer)
    ensures buffer[..] == MagnetRequest(infoHash, UtilsTorrent.PeerIdOf(picks[..UtilsTorrent.DefaultPeerIdLength]))
  {
    buffer := Alloc(PeerWire.HandshakeLength);
    buffer[0] := 19;
    var _ := CopyInto(buffer, 1, PeerWire.ProtocolBytes());
    assert buffer[1..20] == PeerWire.ProtocolBytes();
    buffer[20] := 0;
    buffer[21] := 0;
    buffer[22] := 0;
    buffer[23] := 0;
    buffer[24] := 0;
    buffer[25] := 0x10;
    buffer[26] := 0;
    buffer[27] := 0;
    assert buffer[1..20] == PeerWire.ProtocolBytes();
    assert buffer[20..28] == ExtensionReserved;
    assert buffer[..28] == [buffer[0]] + buffer[1..20] + buffer[20..28];
    ghost var base := buffer[..];
    var _ := CopyInto(buffer, 28, HexDecodePrefix(infoHash));
    var peerId := UtilsTorrent.GeneratePeerId(UtilsTorrent.DefaultPeerIdLength, picks);
    var _ := CopyInto(buffer, 48, Latin1(peerId));
    PeerWire.WriteLayers(base, HexDecodePrefix(infoHash), Latin1(peerId));
  }

  /**
    The fields of a request with a 20-character peer id: length byte 19,
    the protocol, the reserved bytes with only the extension bit, the info
    hash's bytes and the peer id. For the usual 40-character lowercase hex
    info hash of a 20-byte digest, bytes 28..47 are that digest.
   */
  lemma MagnetRequestFields(infoHash: string, peerId: string)
    requires |peerId| == 20
    ensures var r := MagnetRequest(infoHash, peerId);
      && r[0] == 19 && r[1..20] == PeerWire.ProtocolBytes()
      && r[20..28] == ExtensionReserved
      && r[28..48] == Fit(HexDecodePrefix(infoHash), 20)
      && r[48..68] == Latin1(peerId)
  {
    PeerWire.RequestFields(ExtensionReserved, HexDecodePrefix(infoHash), Latin1(peerId));
  }

  lemma MagnetRequestCarriesDigest(digest: seq<byte>, peerId: string)
    requires |digest| == 20 && |peerId| == 20
    ensures MagnetRequest(LowerHex(digest), peerId)[28..48] == digest
  {
    MagnetRequestFields(LowerHex(digest), peerId);
    HexRoundTrip(digest);
  }

  /** Two requests for the same info hash differ at most in the peer id, bytes 48..67. */
  lemma OnlyPeerIdDiffers(infoHash: string, id1: string, id2: string)
    requires |id1| == 20 && |id2| == 20
    ensures MagnetRequest(infoHash, id1)[..48] == MagnetRequest(infoHash, id2)[..48]
  {
    var r1 := MagnetRequest(infoHash, id1);
    var r2 := MagnetRequest(infoHash, id2);
    MagnetRequestFields(infoHash, id1);
    MagnetRequestFields(infoHash, id2);
    assert r1[..48] == r1[..20] + r1[20..28] + r1[28..48];
    assert r2[..48] == r2[..20] + r2[20..28] + r2[28..48];
    assert r1[..20] == [r1[0]] + r1[1..20];
    assert r2[..20] == [r2[0]] + r2[1..20];
  }

  /**
    A peer receiving the request recognises a handshake, reads extension
    support, and reads back the peer id as its hex.
   */
  lemma MagnetRequestParses(infoHash: string, peerId: string)
    requires |peerId| == 20
    ensures PeerWire.IsHandshakeResponse(MagnetRequest(infoHash, peerId))
    ensures PeerWire.ParseHandshake(MagnetRequest(infoHash, peerId))
      == Ok(PeerWire.Handshake(true, LowerHex(Latin1(peerId))))
  {
    PeerWire.RequestIsHandshake(ExtensionReserved, HexDecodePrefix(infoHash), Latin1(peerId));
    PeerWire.ParseRequest(ExtensionReserved, HexDecodePrefix(infoHash), Latin1(peerId));
    assert Latin1(peerId)[..20] == Latin1(peerId);
  }
}
