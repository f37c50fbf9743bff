/**
  app/commands/handshake.js: the plain BEP 3 handshake (no extension bit)
  built from the binary info hash and a peer id, the peer id read out of
  the reply, and the `host:port` argument split at ':'. The socket is not
  modelled.
 */
module HandshakeCommand {
  import opened Bytes
  import opened Text
  import PeerWire

  const ZeroReserved: seq<byte> := [0, 0, 0, 0, 0, 0, 0, 0]

  /**
    The request buffer of `handshake(infoHashCode, peer, peerId)`: both
    strings are written with the 'binary' encoding, one byte per
    character, each cut at the end of the buffer.
   */
  method BuildRequest(infoHashCode: string, peerId: string) returns (buffer: array<byte>)
    ensures fresh(buffer)
    ensures buffer[..] == PeerWire.Request(ZeroReserved, Latin1(infoHashCode), Latin1(peerId))
  {
    buffer := Alloc(PeerWire.HandshakeLength);
    buffer[0] := 19;
    var _ := CopyInto(buffer, 1, PeerWire.ProtocolBytes());
    assert buffer[1..20] == PeerWire.ProtocolBytes();
    FillRange(buffer, 0, 20, 28);
    assert buffer[1..20] == PeerWire.ProtocolBytes();
    assert buffer[20..28] == ZeroReserved;
    assert buffer[..28] == [buffer[0]] + buffer[1..20] + buffer[20..28];
    ghost var base := buffer[..];
    var _ := CopyInto(buffer, 28, Latin1(infoHashCode));
    var _ := CopyInto(buffer, 48, Latin1(peerId));
    PeerWire.WriteLayers(base, Latin1(infoHashCode), Latin1(peerId));
  }

  /**
    For the 20-byte binary digest and 20-character peer id the command
    passes, the request carries both unchanged, with all reserved bytes
    zero, and a peer parsing it reads no extension support.
   */
  lemma RequestFields(infoHashCode: string, peerId: string)
    requires |infoHashCode| == 20 && |peerId| == 20
    ensures var r := PeerWire.Request(ZeroReserved, Latin1(infoHashCode), Latin1(peerId));
      && r[0] == 19 && r[1..20] == PeerWire.ProtocolBytes() && r[20..28] == ZeroReserved
      && r[28..48] == Latin1(infoHashCode) && r[48..68] == Latin1(peerId)
      && PeerWire.ParseHandshake(r) == Ok(PeerWire.Handshake(false, LowerHex(Latin1(peerId))))
  {
    PeerWire.RequestFields(ZeroReserved, Latin1(infoHashCode), Latin1(peerId));
    PeerWire.ParseRequest(ZeroReserved, Latin1(infoHashCode), Latin1(peerId));
    assert Latin1(peerId)[..20] == Latin1(peerId);
    assert Fit(Latin1(infoHashCode), 20) == Latin1(infoHashCode);
  }

  /** The peer id reported for a reply: `data.subarray(48, 68).toString('hex')`. */
  function ReplyPeerId(data: seq<byte>): string
  {
    LowerHex(Subarray(data, 48, 68))
  }

  /**
    A full reply yields the 40 hex digits of bytes 48..67, which determine
    those bytes; a reply of at most 48 bytes yields the empty id (nothing
    throws).
   */
  lemma ReplyPeerIdFields(data: seq<byte>, other: seq<byte>)
    ensures |data| >= PeerWire.HandshakeLength ==>
      ReplyPeerId(data) == LowerHex(data[48..68]) && |ReplyPeerId(data)| == 40
    ensures |data| <= 48 ==> ReplyPeerId(data) == ""
    ensures |data| >= PeerWire.HandshakeLength && |other| >= PeerWire.HandshakeLength ==>
      (ReplyPeerId(data) == ReplyPeerId(other) <==> data[48..68] == other[48..68])
  {
    if |data| >= PeerWire.HandshakeLength && |other| >= PeerWire.HandshakeLength {
      LowerHexInjective(data[48..68], other[48..68]);
    }
  }

  /** `const [host, port] = peer.split(':')`: the port is undefined (`None`) without a ':'. */
  function HostPort(peer: string): (string, Option<string>)
  {
    var parts := Split(peer, ':');
    (parts[0], if |parts| >= 2 then Some(parts[1]) else None)
  }

  /** A `host:port` argument splits into its host and port. */
  lemma HostPortOf(host: string, port: string)
    requires ':' !in host && ':' !in port
    ensures HostPort(host + ":" + port) == (host, Some(port))
  {
    var s := host + ":" + port;
    IndexOfFirst(s, |host|, ':');
    assert s[..|host|] == host;
    assert s[|host| + 1..] == port;
    assert IndexOf(port, ':') == -1;
    assert Split(port, ':') == [port];
    assert Split(s, ':') == [host] + [port];
  }
}
