/**
  The 68-byte handshake of the peer protocol (section "peer protocol" of
  BEP 3, with the reserved-bit convention of BEP 10): its layout, the test
  the handlers use to recognise a reply at the front of their buffer, and
  the fields they read out of a reply.
 */
module PeerWire {
  import opened Bytes
  import opened Text

  const Protocol: string := "BitTorrent protocol"

  /** The length of a handshake; `slice(68)` drops exactly one. */
  const HandshakeLength: nat := 68

  function ProtocolBytes(): (b: seq<byte>)
    ensures |b| == 19
  {
    Latin1(Protocol)
  }

  /** Byte by byte comparison of two buffers; `SameBytesIff` shows it is equality. */
  predicate SameBytes(a: seq<byte>, b: seq<byte>)
    decreases |a|
  {
    |a| == |b| && (|a| == 0 || (a[0] == b[0] && SameBytes(a[1..], b[1..])))
  }

  lemma {:induction false} SameBytesIff(a: seq<byte>, b: seq<byte>)
    ensures SameBytes(a, b) <==> a == b
    decreases |a|
  {
    if |a| == |b| && |a| > 0 {
      SameBytesIff(a[1..], b[1..]);
      if a[0] == b[0] && a[1..] == b[1..] {
        assert a == [a[0]] + a[1..] && b == [b[0]] + b[1..];
      }
    }
  }

  /**
    `isHandshakeResponse(buf)`: at least 68 bytes, and the `buf[0]` bytes
    after the first, decoded as text, read "BitTorrent protocol". A UTF-8
    decoding gives that ASCII text exactly when the bytes are its ASCII
    codes, so the text comparison is stated on bytes.
   */
  predicate IsHandshakeResponse(b: seq<byte>)
  {
    |b| >= HandshakeLength && SameBytes(Subarray(b, 1, b[0] as int + 1), ProtocolBytes())
  }

  /** The recogniser accepts exactly the buffers that start with the handshake's first 20 bytes. */
  lemma HandshakeResponseIff(b: seq<byte>)
    ensures IsHandshakeResponse(b) <==>
      |b| >= HandshakeLength && b[0] == 19 && b[1..20] == ProtocolBytes()
  {
    if |b| >= HandshakeLength {
      var s := Subarray(b, 1, b[0] as int + 1);
      assert |s| == Min(b[0], |b| - 1);
      SameBytesIff(s, ProtocolBytes());
    }
  }

  /** What follows a handshake never changes whether the buffer is recognised as one. */
  lemma HandshakeResponsePrefix(h: seq<byte>, rest: seq<byte>)
    requires IsHandshakeResponse(h)
    ensures IsHandshakeResponse(h + rest)
  {
    HandshakeResponseIff(h);
    HandshakeResponseIff(h + rest);
    assert (h + rest)[1..20] == h[1..20];
  }

  /** A buffer shorter than a handshake whose first byte is 19 holds no complete frame: its length prefix is at least 19·2^24. */
  lemma NineteenPrefixIsLong(b: seq<byte>)
    requires |b| >= 4 && b[0] == 19
    ensures Be32(b) >= 19 * 0x100_0000
  {
  }

  /**
    Bytes 28..67 of a request: the peer id where it reaches (it is written
    last), else the info hash where it reaches, else the zero fill.
   */
  function Layered(infoHash: seq<byte>, peerId: seq<byte>): (t: seq<byte>)
    ensures |t| == 40
  {
    seq(40, k requires 0 <= k < 40 =>
      if 20 <= k < 20 + |peerId| then peerId[k - 20]
      else if k < |infoHash| then infoHash[k]
      else 0)
  }

  /** A 68-byte handshake: length byte 19, protocol, 8 reserved bytes, info hash and peer id. */
  function Request(reserved: seq<byte>, infoHash: seq<byte>, peerId: seq<byte>): (r: seq<byte>)
    requires |reserved| == 8
    ensures |r| == HandshakeLength
  {
    [19] + ProtocolBytes() + reserved + Layered(infoHash, peerId)
  }

  /**
    Writing the info hash at 28 and then the peer id at 48 into a buffer
    whose bytes from 28 on are still zero leaves `Layered` there.
   */
  lemma WriteLayers(base: seq<byte>, infoHash: seq<byte>, peerId: seq<byte>)
    requires |base| == HandshakeLength
    requires forall k :: 28 <= k < HandshakeLength ==> base[k] == 0
    ensures Overwrite(Overwrite(base, 28, infoHash), 48, peerId) == base[..28] + Layered(infoHash, peerId)
  {
    var a := Overwrite(base, 28, infoHash);
    var r := Overwrite(a, 48, peerId);
    var t := base[..28] + Layered(infoHash, peerId);
    forall k | 0 <= k < HandshakeLength
      ensures r[k] == t[k]
    {
      OverwriteAt(base, 28, infoHash, k);
      OverwriteAt(a, 48, peerId, k);
    }
  }

  /**
    With a peer id of at least 20 bytes every field of a request holds
    exactly what was put there: the info hash cut or padded to 20 bytes,
    and the first 20 bytes of the peer id.
   */
  lemma RequestFields(reserved: seq<byte>, infoHash: seq<byte>, peerId: seq<byte>)
    requires |reserved| == 8 && |peerId| >= 20
    ensures var r := Request(reserved, infoHash, peerId);
      && r[0] == 19 && r[1..20] == ProtocolBytes() && r[20..28] == reserved
      && r[28..48] == Fit(infoHash, 20) && r[48..68] == peerId[..20]
  {
    var r := Request(reserved, infoHash, peerId);
    var t := Layered(infoHash, peerId);
    assert r[28..] == t;
    assert t[..20] == Fit(infoHash, 20);
    assert t[20..] == peerId[..20];
  }

  /** Every request is recognised as a handshake reply, whatever its other fields. */
  lemma RequestIsHandshake(reserved: seq<byte>, infoHash: seq<byte>, peerId: seq<byte>)
    requires |reserved| == 8
    ensures IsHandshakeResponse(Request(reserved, infoHash, peerId))
  {
    var r := Request(reserved, infoHash, peerId);
    assert r[1..20] == ProtocolBytes();
    HandshakeResponseIff(r);
  }

  /**
    `message.subarray(1).subarray(1)`: what follows the message id and the
    extended-message id of an extension message (BEP 10), the bencoded
    dictionary and whatever trails it.
   */
  function ExtensionPayload(message: seq<byte>): (r: seq<byte>)
    ensures |message| >= 2 ==> r == message[2..]
    ensures |message| < 2 ==> r == []
  {
    SubarrayFrom(SubarrayFrom(message, 1), 1)
  }

  datatype Handshake = Handshake(supportsExtension: bool, peerId: string)

  /** The exception `readUint8` throws for an offset past the end. */
  datatype RangeError = OutOfRange

  /**
    `parseHandshake(data)`: extension support when reserved byte 25 is
    exactly 0x10, and the peer id as the hex of bytes 48..67 (fewer when the
    buffer is shorter). Reading byte 25 throws for a buffer of at most 25 bytes.
   */
  function ParseHandshake(data: seq<byte>): Result<Handshake, RangeError>
  {
    if |data| < 26 then Err(OutOfRange)
    else Ok(Handshake(data[25] == 0x10, LowerHex(Subarray(data, 48, 68))))
  }

  /**
    What a parsed reply says: it fails exactly on buffers of at most 25
    bytes; extension support means byte 25 is exactly 0x10 (another value
    with that bit set does not count); the peer id of a full handshake is
    the 40-character hex of bytes 48..67.
   */
  lemma ParseHandshakeFields(data: seq<byte>)
    ensures ParseHandshake(data).Ok? <==> |data| >= 26
    ensures ParseHandshake(data).Ok? ==>
      (ParseHandshake(data).value.supportsExtension <==> data[25] == 0x10)
    ensures |data| >= HandshakeLength ==>
      ParseHandshake(data).Ok? && ParseHandshake(data).value.peerId == LowerHex(data[48..68])
      && |ParseHandshake(data).value.peerId| == 40
  {
  }

  /** Byte 25 = 0x11 has the extension bit set and is still reported as no extension support. */
  lemma OtherBitsHideExtension(data: seq<byte>)
    requires |data| >= 26 && data[25] == 0x11
    ensures ParseHandshake(data) == Ok(Handshake(false, LowerHex(Subarray(data, 48, 68))))
  {
  }

  /**
    Parsing a request gives back what was put in it: extension support iff
    reserved byte 5 (byte 25 overall) is 0x10, and the hex of the peer id.
   */
  lemma ParseRequest(reserved: seq<byte>, infoHash: seq<byte>, peerId: seq<byte>)
    requires |reserved| == 8 && |peerId| >= 20
    ensures ParseHandshake(Request(reserved, infoHash, peerId))
      == Ok(Handshake(reserved[5] == 0x10, LowerHex(peerId[..20])))
  {
    var r := Request(reserved, infoHash, peerId);
    RequestFields(reserved, infoHash, peerId);
    assert r[25] == r[20..28][5];
  }
}
