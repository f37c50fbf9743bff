/**
  app/commands/magnet-info.js: the module state of a magnet metadata
  fetch (incoming buffer, whether the handshake came, the peer's
  `ut_metadata` id and `torrent.info`), its framing loop, and the handling
  of extension messages (id 20, BEP 10) carrying the peer's extension ids
  or a metadata piece (the "data" message of BEP 9).

  `decodeBencode` and `splitPieceHashes` come from module versions this
  model does not contain; they are the parameters `decode` and `split`,
  returning `None` where they throw. Nothing else is assumed about them.
 */
module MagnetInfo {
  import opened Bytes
  import opened Bencode
  import PeerWire
  import Framing

  type Decoder = seq<byte> -> Option<Value>
  type Splitter = Option<Value> -> Option<seq<seq<byte>>>

  const Extended: byte := 20

  /** `torrent.info` as the metadata response sets it. */
  datatype TorrentInfo = TorrentInfo(length: Option<Value>, pieceLength: Option<Value>, pieces: seq<seq<byte>>)

  /** The module's state besides the buffer; `None` stands for undefined. */
  datatype Session = Session(handshakeReceived: bool, peerMetadataExtensionId: Option<Value>, info: Option<TorrentInfo>)

  /**
    Where `message.subarray(message.length - total_size)` starts: an
    integer `total_size` counts back from the end (clamped by `Subarray`);
    anything else makes the difference NaN, which `subarray` reads as 0.
   */
  function MetadataStart(messageLength: nat, totalSize: Option<Value>): int
  {
    match totalSize
    case Some(BInt(n)) => messageLength - n
    case _ => 0
  }

  /**
    The state after `processPeerMessage(message)`, or `None` when it
    throws: reading the id of an empty message, or a decode or split that
    throws.
   */
  function MessageEffect(decode: Decoder, split: Splitter, s: Session, message: seq<byte>): Option<Session>
  {
    if |message| == 0 then None
    else if message[0] != Extended then Some(s)
    else match decode(PeerWire.ExtensionPayload(message))
      case None => None
      case Some(decoded) =>
        if HasProperty(decoded, "m") then
          Some(s.(peerMetadataExtensionId := Property(Property(decoded, "m").value, "ut_metadata")))
        else if HasProperty(decoded, "msg_type") then
          match decode(SubarrayFrom(message, MetadataStart(|message|, Property(decoded, "total_size"))))
          case None => None
          case Some(piece) =>
            match split(Property(piece, "pieces"))
            case None => None
            case Some(hashes) =>
              Some(s.(info := Some(TorrentInfo(Property(piece, "length"), Property(piece, "piece length"), hashes))))
        else Some(s)
  }

  /** A handshake at the front of the buffer sets `handshakeReceived`. */
  function Noted(s: Session): Session
  {
    s.(handshakeReceived := true)
  }

  function Processor(decode: Decoder, split: Splitter): (Session, seq<byte>) -> Option<Session>
  {
    (s: Session, message: seq<byte>) => MessageEffect(decode, split, s, message)
  }

  class Client {
    const decode: Decoder
    const split: Splitter
    var incomingBuffer: seq<byte>
    var handshakeReceived: bool
    var peerMetadataExtensionId: Option<Value>
    var info: Option<TorrentInfo>

    function Snapshot(): Session
      reads this
    {
      Session(handshakeReceived, peerMetadataExtensionId, info)
    }

    constructor(decode: Decoder, split: Splitter)
      ensures this.decode == decode && this.split == split
      ensures incomingBuffer == [] && Snapshot() == Session(false, None, None)
    {
      this.decode := decode;
      this.split := split;
      incomingBuffer := [];
      handshakeReceived := false;
      peerMetadataExtensionId := None;
      info := None;
    }

    /** `processPeerMessage(message)`; `false` when it throws, the state then unchanged. */
    method ProcessPeerMessage(message: seq<byte>) returns (ok: bool)
      modifies this
      ensures incomingBuffer == old(incomingBuffer)
      ensures ok <==> MessageEffect(decode, split, old(Snapshot()), message).Some?
      ensures ok ==> Snapshot() == MessageEffect(decode, split, old(Snapshot()), message).value
      ensures !ok ==> Snapshot() == old(Snapshot())
    {
      if |message| == 0 {
        return false;
      }
      var messageId := message[0];
      if messageId == Extended {
        var payload := SubarrayFrom(message, 1);
        var dictionary := SubarrayFrom(payload, 1);
        var decoded := decode(dictionary);
        if decoded.None? {
          return false;
        }
        if HasProperty(decoded.value, "m") {
          peerMetadataExtensionId := Property(Property(decoded.value, "m").value, "ut_metadata");
        } else if HasProperty(decoded.value, "msg_type") {
          var totalSize := Property(decoded.value, "total_size");
          var metadataPiece := decode(SubarrayFrom(message, MetadataStart(|message|, totalSize)));
          if metadataPiece.None? {
            return false;
          }
          var pieces := split(Property(metadataPiece.value, "pieces"));
          if pieces.None? {
            return false;
          }
          info := Some(TorrentInfo(Property(metadataPiece.value, "length"),
                                   Property(metadataPiece.value, "piece length"), pieces.value));
        }
      }
      return true;
    }

    /**
      `dataEventHandler(chunk)`: the chunk is appended and the buffer
      framed; the handler ends as `Drain` says, `threw` reporting a message
      whose processing threw.
     */
    method DataEventHandler(chunk: seq<byte>) returns (threw: bool)
      modifies this
      ensures Framing.Drain(Framing.Consume, Noted, Processor(decode, split), old(Snapshot()), old(incomingBuffer) + chunk)
              == Framing.Drained(Snapshot(), incomingBuffer, threw)
    {
      ghost var p := Processor(decode, split);
      incomingBuffer := incomingBuffer + chunk;
      ghost var outcome := Framing.Drain(Framing.Consume, Noted, p, Snapshot(), incomingBuffer);
      while |incomingBuffer| >= 4
        invariant outcome == Framing.Drain(Framing.Consume, Noted, p, Snapshot(), incomingBuffer)
        decreases |incomingBuffer|
      {
        ghost var before := Snapshot();
        ghost var buffer := incomingBuffer;
        if PeerWire.IsHandshakeResponse(incomingBuffer) {
          Framing.DrainHandshakeStep(Noted, p, before, buffer);
          incomingBuffer := Subarray(incomingBuffer, PeerWire.HandshakeLength, |incomingBuffer|);
          handshakeReceived := true;
          assert incomingBuffer == buffer[PeerWire.HandshakeLength..];
          assert Snapshot() == Noted(before);
          continue;
        }
        var messageLength := Be32(incomingBuffer);
        if |incomingBuffer| < messageLength + 4 {
          break;
        }
        var message := Subarray(incomingBuffer, 4, 4 + messageLength);
        assert p(before, message) == MessageEffect(decode, split, before, message);
        var ok := ProcessPeerMessage(message);
        if !ok {
          return true;
        }
        Framing.DrainFrameStep(Framing.Consume, Noted, p, before, buffer);
        incomingBuffer := Subarray(incomingBuffer, 4 + messageLength, |incomingBuffer|);
        assert incomingBuffer == buffer[4 + messageLength..];
      }
      return false;
    }
  }

  // ---------------------------------------------------------------------
  // What the handlers promise.
  // ---------------------------------------------------------------------

  /** A dictionary with 'm' records the peer's `m.ut_metadata`, and nothing else changes. */
  lemma ExtensionIdRecorded(decode: Decoder, split: Splitter, s: Session, message: seq<byte>, d: Value)
    requires |message| >= 2 && message[0] == Extended
    requires decode(message[2..]) == Some(d) && HasProperty(d, "m")
    ensures MessageEffect(decode, split, s, message)
      == Some(Session(s.handshakeReceived, Property(Property(d, "m").value, "ut_metadata"), s.info))
  {
  }

  /**
    A metadata response: the metadata is decoded from exactly the last
    `total_size` bytes of the message, and `torrent.info` is set from it.
   */
  lemma MetadataFromTrailingBytes(decode: Decoder, split: Splitter, s: Session,
                                  head: seq<byte>, metadata: seq<byte>, d: Value, piece: Value)
    requires |head| >= 2 && head[0] == Extended
    requires decode((head + metadata)[2..]) == Some(d)
    requires !HasProperty(d, "m") && HasProperty(d, "msg_type")
    requires Property(d, "total_size") == Some(BInt(|metadata|))
    requires decode(metadata) == Some(piece) && split(Property(piece, "pieces")).Some?
    ensures MessageEffect(decode, split, s, head + metadata)
      == Some(Session(s.handshakeReceived, s.peerMetadataExtensionId,
                      Some(TorrentInfo(Property(piece, "length"), Property(piece, "piece length"),
                                       split(Property(piece, "pieces")).value))))
  {
    var message := head + metadata;
    assert MetadataStart(|message|, Property(d, "total_size")) == |head|;
    assert SubarrayFrom(message, |head|) == metadata;
  }

  /** A metadata response whose `total_size` is not an integer decodes the whole message instead. */
  lemma MetadataWithoutTotalSize(decode: Decoder, split: Splitter, s: Session, message: seq<byte>, d: Value)
    requires |message| >= 2 && message[0] == Extended
    requires decode(message[2..]) == Some(d)
    requires !HasProperty(d, "m") && HasProperty(d, "msg_type") && !HasProperty(d, "total_size")
    ensures MessageEffect(decode, split, s, message) ==
      match decode(message)
      case None => None
      case Some(piece) =>
        match split(Property(piece, "pieces"))
        case None => None
        case Some(hashes) => Some(s.(info := Some(TorrentInfo(Property(piece, "length"), Property(piece, "piece length"), hashes))))
  {
    assert SubarrayFrom(message, 0) == message;
  }

  /** Messages with an id other than 20, and extension messages with neither key, change nothing. */
  lemma OtherMessagesChangeNothing(decode: Decoder, split: Splitter, s: Session, message: seq<byte>)
    requires |message| >= 1
    requires message[0] != Extended ||
      (|message| >= 2 && decode(message[2..]).Some?
       && !HasProperty(decode(message[2..]).value, "m") && !HasProperty(decode(message[2..]).value, "msg_type"))
    ensures MessageEffect(decode, split, s, message) == Some(s)
  {
  }

  /**
    A keep-alive, the empty message of BEP 3 (length prefix 0), makes the
    handler throw: reading its id fails, and the keep-alive stays at the
    front of the buffer.
   */
  lemma KeepAliveThrows(decode: Decoder, split: Splitter, s: Session, rest: seq<byte>)
    ensures Framing.Drain(Framing.Consume, Noted, Processor(decode, split), s, [0, 0, 0, 0] + rest)
      == Framing.Drained(s, [0, 0, 0, 0] + rest, true)
  {
    var buf := [0, 0, 0, 0] + rest;
    PeerWire.HandshakeResponseIff(buf);
    assert buf[4..4] == [];
  }

  /**
    A stream of a handshake and then an extension message naming the
    peer's ids, arriving in one chunk, leaves the handshake noted and the
    peer's `ut_metadata` id recorded, with nothing left buffered.
   */
  lemma HandshakeThenExtensionIds(decode: Decoder, split: Splitter, s: Session,
                                  h: seq<byte>, message: seq<byte>, d: Value)
    requires Framing.WellFormed(Framing.Handshake(h)) && Framing.WellFormed(Framing.Frame(message))
    requires |message| >= 2 && message[0] == Extended
    requires decode(message[2..]) == Some(d) && HasProperty(d, "m")
    ensures var us := [Framing.Handshake(h), Framing.Frame(message)];
      Framing.Drain(Framing.Consume, Noted, Processor(decode, split), s, Framing.Wire(us))
      == Framing.Drained(Session(true, Property(Property(d, "m").value, "ut_metadata"), s.info), [], false)
  {
    var us := [Framing.Handshake(h), Framing.Frame(message)];
    var p := Processor(decode, split);
    Framing.DrainOfWire(Noted, p, s, us, []);
    assert Framing.Wire(us) + [] == Framing.Wire(us);
    ExtensionIdRecorded(decode, split, Noted(s), message, d);
    var t := Session(true, Property(Property(d, "m").value, "ut_metadata"), s.info);
    assert p(Noted(s), message) == Some(t);
    assert us[1..] == [Framing.Frame(message)];
    assert us[1..][1..] == [];
    assert Framing.Run(Noted, p, t, [], []) == Framing.Drained(t, [], false);
    assert Framing.Run(Noted, p, Noted(s), us[1..], []) == Framing.Drained(t, [], false);
    assert Framing.Run(Noted, p, s, us, []) == Framing.Drained(t, [], false);
  }

  /**
    The same stream split into two chunks at any point: the first chunk
    does not throw, and after the second the handshake is noted, the id
    recorded and nothing is left buffered, as with one chunk.
   */
  lemma HandshakeThenExtensionIdsInTwoChunks(decode: Decoder, split: Splitter, s: Session,
                                             h: seq<byte>, message: seq<byte>, d: Value, a: seq<byte>, b: seq<byte>)
    requires Framing.WellFormed(Framing.Handshake(h)) && Framing.WellFormed(Framing.Frame(message))
    requires |message| >= 2 && message[0] == Extended
    requires decode(message[2..]) == Some(d) && HasProperty(d, "m")
    requires a + b == Framing.Wire([Framing.Handshake(h), Framing.Frame(message)])
    ensures var r := Framing.Drain(Framing.Consume, Noted, Processor(decode, split), s, a);
      && !r.threw
      && Framing.Drain(Framing.Consume, Noted, Processor(decode, split), r.state, r.buffer + b)
         == Framing.Drained(Session(true, Property(Property(d, "m").value, "ut_metadata"), s.info), [], false)
  {
    var us := [Framing.Handshake(h), Framing.Frame(message)];
    var p := Processor(decode, split);
    HandshakeThenExtensionIds(decode, split, s, h, message, d);
    Framing.DrainOfWire(Noted, p, s, us, []);
    assert Framing.Wire(us) + [] == Framing.Wire(us);
    Framing.WireInTwoChunks(Noted, p, s, us, a, b);
  }
}
