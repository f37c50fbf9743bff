/**
  app/commands/magnet-download.js: the module `state` of a magnet piece
  download (the `blocks` Map, the connection status, the incoming and
  outgoing buffers, the peer's `ut_metadata` id and `torrent.info`), its
  framing loop, which consumes a handshake's 68 bytes and goes on, the
  handling of PIECE, UNCHOKE and extension (id 20) messages, and the
  batching of block requests in `downloadPiece`, which writes only while
  nothing is waiting in the incoming buffer.

  `decodeBencode`, `splitPieceHashes`, `parseBlockPayload`,
  `createBlockRequest`, `calculatePieceLength`, `createMetadataRequest`
  and `BLOCK_REQUEST_SIZE` come from module versions this model does not
  contain: they are parameters, returning `None` where they throw.
 */
module MagnetDownloadCommand {
  import opened Bytes
  import opened Bencode
  import PeerWire
  import Framing
  import Blocks
  import MagnetInfo
  import DownloadPieceCommand

  type Status = DownloadPieceCommand.PeerConnectionStatus
  type PayloadParser = DownloadPieceCommand.PayloadParser

  /** `torrent.info` as the metadata response sets it: the split hashes and the raw `pieces` both kept. */
  datatype TorrentInfo = TorrentInfo(length: Option<Value>, pieceLength: Option<Value>,
                                     splitPieces: seq<seq<byte>>, pieces: Option<Value>)

  /**
    The module state besides the two buffers. `info` is `None` while
    `torrent.info` is still the empty object it starts as.
   */
  datatype DownloadState = DownloadState(connectionStatus: Status, blocks: seq<Blocks.Entry>,
                                         peerMetadataExtensionId: Option<Value>, info: Option<TorrentInfo>)

  /**
    The state after `processPeerMessage(message)`, or `None` when it
    throws: reading the id of an empty message, or a parser, decode or
    split that throws. A PIECE stores its block under its key, UNCHOKE is
    recorded, an extension message records the peer's `ut_metadata` id or
    the metadata, and any other id changes nothing.
   */
  function MessageEffect(decode: MagnetInfo.Decoder, split: MagnetInfo.Splitter, parseBlock: PayloadParser,
                         s: DownloadState, message: seq<byte>): Option<DownloadState>
  {
    if |message| == 0 then None
    else if message[0] == DownloadPieceCommand.Piece then
      match parseBlock(SubarrayFrom(message, 1))
      case None => None
      case Some(p) =>
        Some(s.(blocks := Blocks.Set(s.blocks, Blocks.BlockKey(p.pieceIndex, p.blockOffset), p.block)))
    else if message[0] == DownloadPieceCommand.Unchoke then
      Some(s.(connectionStatus := DownloadPieceCommand.UnchokeReceived))
    else if message[0] != MagnetInfo.Extended then Some(s)
    else match decode(PeerWire.ExtensionPayload(message))
      case None => None
      case Some(decoded) =>
        if HasProperty(decoded, "m") then
          Some(s.(peerMetadataExtensionId := Property(Property(decoded, "m").value, "ut_metadata")))
        else if HasProperty(decoded, "msg_type") then
          match decode(SubarrayFrom(message, MagnetInfo.MetadataStart(|message|, Property(decoded, "total_size"))))
          case None => None
          case Some(piece) =>
            match split(Property(piece, "pieces"))
            case None => None
            case Some(hashes) =>
              Some(s.(info := Some(TorrentInfo(Property(piece, "length"), Property(piece, "piece length"),
                                               hashes, Property(piece, "pieces")))))
        else Some(s)
  }

  /** A handshake at the front of the buffer sets the status. */
  function Noted(s: DownloadState): DownloadState
  {
    s.(connectionStatus := DownloadPieceCommand.HandshakeReceived)
  }

  function Processor(decode: MagnetInfo.Decoder, split: MagnetInfo.Splitter, parseBlock: PayloadParser)
    : (DownloadState, seq<byte>) -> Option<DownloadState>
  {
    (s: DownloadState, message: seq<byte>) => MessageEffect(decode, split, parseBlock, s, message)
  }

  /** The metadata request `handleCommand` sends: for the extension id the peer announced, piece 0. */
  function MetadataRequest(createMetadataRequest: (Option<Value>, int) -> seq<byte>, s: DownloadState): seq<byte>
  {
    createMetadataRequest(s.peerMetadataExtensionId, 0)
  }

  class State {
    const decode: MagnetInfo.Decoder
    const split: MagnetInfo.Splitter
    const parseBlockPayload: PayloadParser
    var blocks: seq<Blocks.Entry>
    var connectionStatus: Status
    var incomingBuffer: seq<byte>
    var outgoingBuffer: seq<byte>
    var peerMetadataExtensionId: Option<Value>
    var info: Option<TorrentInfo>

    function Snapshot(): DownloadState
      reads this
    {
      DownloadState(connectionStatus, blocks, peerMetadataExtensionId, info)
    }

    constructor(decode: MagnetInfo.Decoder, split: MagnetInfo.Splitter, parseBlockPayload: PayloadParser)
      ensures this.decode == decode && this.split == split && this.parseBlockPayload == parseBlockPayload
      ensures Snapshot() == DownloadState(DownloadPieceCommand.Pending, [], None, None)
      ensures incomingBuffer == [] && outgoingBuffer == []
    {
      this.decode := decode;
      this.split := split;
      this.parseBlockPayload := parseBlockPayload;
      blocks := [];
      connectionStatus := DownloadPieceCommand.Pending;
      incomingBuffer := [];
      outgoingBuffer := [];
      peerMetadataExtensionId := None;
      info := None;
    }

    /** `processPeerMessage(message)`; `false` when it throws, the state then unchanged. */
    method ProcessPeerMessage(message: seq<byte>) returns (ok: bool)
      modifies this
      ensures incomingBuffer == old(incomingBuffer) && outgoingBuffer == old(outgoingBuffer)
      ensures ok <==> MessageEffect(decode, split, parseBlockPayload, old(Snapshot()), message).Some?
      ensures ok ==> Snapshot() == MessageEffect(decode, split, parseBlockPayload, old(Snapshot()), message).value
      ensures !ok ==> Snapshot() == old(Snapshot())
    {
      if |message| == 0 {
        return false;
      }
      var messageId := message[0];
      if messageId == DownloadPieceCommand.Piece {
        var blockPayload := SubarrayFrom(message, 1);
        var parsed := parseBlockPayload(blockPayload);
        if parsed.None? {
          return false;
        }
        blocks := Blocks.Set(blocks, Blocks.BlockKey(parsed.value.pieceIndex, parsed.value.blockOffset),
                             parsed.value.block);
        return true;
      }
      if messageId == DownloadPieceCommand.Unchoke {
        connectionStatus := DownloadPieceCommand.UnchokeReceived;
        return true;
      }
      if messageId == MagnetInfo.Extended {
        var payload := SubarrayFrom(message, 1);
        var dictionary := SubarrayFrom(payload, 1);
        var decoded := decode(dictionary);
        if decoded.None? {
          return false;
        }
        if HasProperty(decoded.value, "m") {
          peerMetadataExtensionId := Property(Property(decoded.value, "m").value, "ut_metadata");
        } else if HasProperty(decoded.value, "msg_type") {
          var totalSize := Property(decoded.value, "total_size");
          var metadataPiece := decode(SubarrayFrom(message, MagnetInfo.MetadataStart(|message|, totalSize)));
          if metadataPiece.None? {
            return false;
          }
          var splitPieces := split(Property(metadataPiece.value, "pieces"));
          if splitPieces.None? {
            return false;
          }
          info := Some(TorrentInfo(Property(metadataPiece.value, "length"),
                                   Property(metadataPiece.value, "piece length"),
                                   splitPieces.value, Property(metadataPiece.value, "pieces")));
        }
      }
      return true;
    }

    /**
      `dataEventHandler(chunk)`: the chunk is appended and the buffer
      framed, a handshake consuming its 68 bytes; the handler ends as
      `Drain` with the `Consume` rule says, `threw` reporting a message
      whose processing threw.
     */
    method DataEventHandler(chunk: seq<byte>) returns (threw: bool)
      modifies this
      ensures outgoingBuffer == old(outgoingBuffer)
      ensures Framing.Drain(Framing.Consume, Noted, Processor(decode, split, parseBlockPayload),
                            old(Snapshot()), old(incomingBuffer) + chunk)
              == Framing.Drained(Snapshot(), incomingBuffer, threw)
    {
      ghost var p := Processor(decode, split, parseBlockPayload);
      incomingBuffer := incomingBuffer + chunk;
      ghost var outcome := Framing.Drain(Framing.Consume, Noted, p, Snapshot(), incomingBuffer);
      while |incomingBuffer| >= 4
        invariant outcome == Framing.Drain(Framing.Consume, Noted, p, Snapshot(), incomingBuffer)
        invariant outgoingBuffer == old(outgoingBuffer)
        decreases |incomingBuffer|
      {
        ghost var before := Snapshot();
        ghost var buffer := incomingBuffer;
        if PeerWire.IsHandshakeResponse(incomingBuffer) {
          Framing.DrainHandshakeStep(Noted, p, before, buffer);
          incomingBuffer := Subarray(incomingBuffer, PeerWire.HandshakeLength, |incomingBuffer|);
          connectionStatus := DownloadPieceCommand.HandshakeReceived;
          assert incomingBuffer == buffer[PeerWire.HandshakeLength..];
          assert Snapshot() == Noted(before);
          continue;
        }
        var messageLength := Be32(incomingBuffer);
        if |incomingBuffer| < messageLength + 4 {
          break;
        }
        var message := Subarray(incomingBuffer, 4, 4 + messageLength);
        assert p(before, message) == MessageEffect(decode, split, parseBlockPayload, before, message);
        var ok := ProcessPeerMessage(message);
        if !ok {
          return true;
        }
        Framing.DrainFrameStep(Framing.Consume, Noted, p, before, buffer);
        incomingBuffer := Subarray(incomingBuffer, 4 + messageLength, |incomingBuffer|);
        assert incomingBuffer == buffer[4 + messageLength..];
      }
      return false;
    }

    /**
      The batching loop of `downloadPiece`: each block's request is
      appended to the outgoing buffer, which is written once it holds at
      least `MAXIMUM_OUTGOING_BUFFER_SIZE` bytes, that is
      `5 * blockRequestSize`, and what is left is written once the last
      block has been requested; every write also needs an empty incoming
      buffer. `written` are the socket writes, in order.
     */
    method DownloadPiece(create: Blocks.RequestMaker, calculatedPieceLength: int, blockRequestSize: int)
      returns (written: seq<seq<byte>>, totalBlockCount: nat)
      requires Blocks.PositiveSizes(create)
      modifies this`outgoingBuffer
      ensures totalBlockCount == |Blocks.Requests(create, calculatedPieceLength, 0)|
      ensures incomingBuffer == [] ==>
        && written == Batches(Blocks.Requests(create, calculatedPieceLength, 0), 5 * blockRequestSize, [])
        && Concat(written) == Concat(Blocks.Requests(create, calculatedPieceLength, 0))
        && outgoingBuffer == []
        && DownloadPieceCommand.FullButLast(written, 5 * blockRequestSize)
      ensures incomingBuffer != [] ==>
        written == [] && outgoingBuffer == Concat(Blocks.Requests(create, calculatedPieceLength, 0))
    {
      var maximum := blockRequestSize * 5;
      var blockOffset := 0;
      totalBlockCount := 0;
      written := [];
      outgoingBuffer := [];
      ghost var all := Blocks.Requests(create, calculatedPieceLength, 0);
      ghost var idle := incomingBuffer == [];
      while blockOffset < calculatedPieceLength
        invariant idle == (incomingBuffer == [])
        invariant Accounted(idle, written, Blocks.Requests(create, calculatedPieceLength, blockOffset), maximum, outgoingBuffer, all)
        invariant totalBlockCount + |Blocks.Requests(create, calculatedPieceLength, blockOffset)| == |all|
        decreases calculatedPieceLength - blockOffset
      {
        var request := create(blockOffset);
        BatchTurn(idle, written, Blocks.Requests(create, calculatedPieceLength, blockOffset),
                  Blocks.Requests(create, calculatedPieceLength, blockOffset + request.blockSize),
                  request.peerMessage, maximum, outgoingBuffer, all);
        outgoingBuffer := outgoingBuffer + request.peerMessage;
        blockOffset := blockOffset + request.blockSize;
        totalBlockCount := totalBlockCount + 1;
        if |outgoingBuffer| >= maximum && |incomingBuffer| == 0 {
          written := written + [outgoingBuffer];
          outgoingBuffer := [];
        }
      }
      BatchEnd(idle, written, maximum, outgoingBuffer, all);
      if |outgoingBuffer| > 0 && |incomingBuffer| == 0 {
        written := written + [outgoingBuffer];
        outgoingBuffer := [];
      }
      if incomingBuffer == [] {
        BatchesConcat(all, maximum, []);
        BatchesFull(all, maximum, []);
      }
    }
  }

  /**
    Where the loop of `downloadPiece` stands with `requests` still to
    queue and `pending` in the outgoing buffer: with an empty incoming
    buffer (`idle`), the writes made and those still to come make up
    `Batches(all, ...)`; otherwise nothing is written and the outgoing
    buffer holds every request queued so far.
   */
  ghost predicate Accounted(idle: bool, written: seq<seq<byte>>, requests: seq<seq<byte>>, maximum: int,
                            pending: seq<byte>, all: seq<seq<byte>>)
  {
    if idle then written + Batches(requests, maximum, pending) == Batches(all, maximum, [])
    else written == [] && pending + Concat(requests) == Concat(all)
  }

  /** One turn of the loop keeps the account. */
  lemma BatchTurn(idle: bool, written: seq<seq<byte>>, requests: seq<seq<byte>>, later: seq<seq<byte>>,
                  message: seq<byte>, maximum: int, pending: seq<byte>, all: seq<seq<byte>>)
    requires requests == [message] + later
    requires Accounted(idle, written, requests, maximum, pending, all)
    ensures var buffered := pending + message;
      if |buffered| >= maximum && idle then Accounted(idle, written + [buffered], later, maximum, [], all)
      else Accounted(idle, written, later, maximum, buffered, all)
  {
    assert requests[0] == message && requests[1..] == later;
    var buffered := pending + message;
    if idle && |buffered| >= maximum {
      DownloadPieceCommand.WriteOne(written, buffered, Batches(later, maximum, []));
    }
  }

  /** Once every request is queued, the final flush completes the account. */
  lemma BatchEnd(idle: bool, written: seq<seq<byte>>, maximum: int, pending: seq<byte>, all: seq<seq<byte>>)
    requires Accounted(idle, written, [], maximum, pending, all)
    ensures idle ==> (if |pending| > 0 then written + [pending] else written) == Batches(all, maximum, [])
    ensures !idle ==> written == [] && pending == Concat(all)
  {
  }

  /**
    The socket writes `downloadPiece` makes from `requests` while nothing
    is waiting in the incoming buffer, with `pending` already in the
    outgoing buffer: each request is appended to the buffer, the buffer is
    written as soon as it holds at least `maximum` bytes, and what is left
    at the end is written if it is not empty.
   */
  function Batches(requests: seq<seq<byte>>, maximum: int, pending: seq<byte>): seq<seq<byte>>
    decreases |requests|
  {
    if requests == [] then (if |pending| > 0 then [pending] else [])
    else
      var buffered := pending + requests[0];
      if |buffered| >= maximum then [buffered] + Batches(requests[1..], maximum, [])
      else Batches(requests[1..], maximum, buffered)
  }

  /** The writes carry the pending bytes and then every request, in order, and nothing else. */
  lemma {:induction false} BatchesConcat(requests: seq<seq<byte>>, maximum: int, pending: seq<byte>)
    ensures Concat(Batches(requests, maximum, pending)) == pending + Concat(requests)
    decreases |requests|
  {
    if requests == [] {
      if |pending| > 0 {
        assert [pending][1..] == [];
      }
    } else {
      var buffered := pending + requests[0];
      if |buffered| >= maximum {
        BatchesConcat(requests[1..], maximum, []);
        var rest := Batches(requests[1..], maximum, []);
        assert ([buffered] + rest)[1..] == rest;
      } else {
        BatchesConcat(requests[1..], maximum, buffered);
      }
    }
  }

  /** Every write but the last, which flushes what is left, holds at least `maximum` bytes. */
  lemma {:induction false} BatchesFull(requests: seq<seq<byte>>, maximum: int, pending: seq<byte>)
    ensures DownloadPieceCommand.FullButLast(Batches(requests, maximum, pending), maximum)
    decreases |requests|
  {
    if requests != [] {
      var buffered := pending + requests[0];
      if |buffered| >= maximum {
        BatchesFull(requests[1..], maximum, []);
        var rest := Batches(requests[1..], maximum, []);
        assert ([buffered] + rest)[1..] == rest;
      } else {
        BatchesFull(requests[1..], maximum, buffered);
      }
    }
  }

  /**
    No write goes past the threshold by more than one request: with
    requests of at most `longest` bytes every write is shorter than
    `maximum + longest`, and the final flush is shorter than `maximum`.
   */
  lemma {:induction false} BatchesBounded(requests: seq<seq<byte>>, maximum: int, pending: seq<byte>, longest: int)
    requires |pending| < maximum && DownloadPieceCommand.AtMost(requests, longest) && 0 <= longest
    ensures DownloadPieceCommand.AllBelow(Batches(requests, maximum, pending), maximum + longest)
    decreases |requests|
  {
    if requests == [] {
      if |pending| > 0 {
        assert [pending][1..] == [];
      }
    } else {
      var buffered := pending + requests[0];
      if |buffered| >= maximum {
        BatchesBounded(requests[1..], maximum, [], longest);
        var rest := Batches(requests[1..], maximum, []);
        assert ([buffered] + rest)[1..] == rest;
      } else {
        BatchesBounded(requests[1..], maximum, buffered, longest);
      }
    }
  }

  // ---------------------------------------------------------------------
  // What the handlers promise.
  // ---------------------------------------------------------------------

  /**
    A PIECE message stores its block under (pieceIndex, blockOffset),
    replacing an earlier block there; every other key keeps its block and
    nothing else changes.
   */
  lemma PieceStored(decode: MagnetInfo.Decoder, split: MagnetInfo.Splitter, parseBlock: PayloadParser,
                    s: DownloadState, message: seq<byte>, p: DownloadPieceCommand.BlockPayload, other: Blocks.BlockKey)
    requires Blocks.UniqueKeys(s.blocks)
    requires |message| >= 1 && message[0] == DownloadPieceCommand.Piece
    requires parseBlock(message[1..]) == Some(p)
    ensures var r := MessageEffect(decode, split, parseBlock, s, message);
      var k := Blocks.BlockKey(p.pieceIndex, p.blockOffset);
      && r.Some?
      && Blocks.Lookup(r.value.blocks, k) == Some(p.block)
      && (other != k ==> Blocks.Lookup(r.value.blocks, other) == Blocks.Lookup(s.blocks, other))
      && r.value == s.(blocks := r.value.blocks)
  {
    assert SubarrayFrom(message, 1) == message[1..];
    Blocks.SetSemantics(s.blocks, Blocks.BlockKey(p.pieceIndex, p.blockOffset), p.block, other);
  }

  /** UNCHOKE sets the status and nothing else. */
  lemma UnchokeRecorded(decode: MagnetInfo.Decoder, split: MagnetInfo.Splitter, parseBlock: PayloadParser,
                        s: DownloadState, message: seq<byte>)
    requires |message| >= 1 && message[0] == DownloadPieceCommand.Unchoke
    ensures MessageEffect(decode, split, parseBlock, s, message)
      == Some(s.(connectionStatus := DownloadPieceCommand.UnchokeReceived))
  {
  }

  /**
    A dictionary with 'm' records the peer's `m.ut_metadata`, nothing
    else changes, and the metadata request then names that id.
   */
  lemma ExtensionIdRecorded(decode: MagnetInfo.Decoder, split: MagnetInfo.Splitter, parseBlock: PayloadParser,
                            createMetadataRequest: (Option<Value>, int) -> seq<byte>,
                            s: DownloadState, message: seq<byte>, d: Value)
    requires |message| >= 2 && message[0] == MagnetInfo.Extended
    requires decode(message[2..]) == Some(d) && HasProperty(d, "m")
    ensures var r := MessageEffect(decode, split, parseBlock, s, message);
      var id := Property(Property(d, "m").value, "ut_metadata");
      && r == Some(s.(peerMetadataExtensionId := id))
      && MetadataRequest(createMetadataRequest, r.value) == createMetadataRequest(id, 0)
  {
  }

  /**
    A metadata response: the metadata is decoded from exactly the last
    `total_size` bytes of the message, and `torrent.info` is set from it,
    with both the split hashes and the raw `pieces`.
   */
  lemma MetadataFromTrailingBytes(decode: MagnetInfo.Decoder, split: MagnetInfo.Splitter, parseBlock: PayloadParser,
                                  s: DownloadState, head: seq<byte>, metadata: seq<byte>, d: Value, piece: Value)
    requires |head| >= 2 && head[0] == MagnetInfo.Extended
    requires decode((head + metadata)[2..]) == Some(d)
    requires !HasProperty(d, "m") && HasProperty(d, "msg_type")
    requires Property(d, "total_size") == Some(BInt(|metadata|))
    requires decode(metadata) == Some(piece) && split(Property(piece, "pieces")).Some?
    ensures MessageEffect(decode, split, parseBlock, s, head + metadata)
      == Some(s.(info := Some(TorrentInfo(Property(piece, "length"), Property(piece, "piece length"),
                                          split(Property(piece, "pieces")).value, Property(piece, "pieces")))))
  {
    var message := head + metadata;
    assert MagnetInfo.MetadataStart(|message|, Property(d, "total_size")) == |head|;
    assert SubarrayFrom(message, |head|) == metadata;
  }

  /** Ids other than PIECE, UNCHOKE and 20, and extension messages with neither key, change nothing. */
  lemma OtherMessagesChangeNothing(decode: MagnetInfo.Decoder, split: MagnetInfo.Splitter, parseBlock: PayloadParser,
                                   s: DownloadState, message: seq<byte>)
    requires |message| >= 1
    requires message[0] != DownloadPieceCommand.Piece && message[0] != DownloadPieceCommand.Unchoke
    requires message[0] != MagnetInfo.Extended ||
      (|message| >= 2 && decode(message[2..]).Some?
       && !HasProperty(decode(message[2..]).value, "m") && !HasProperty(decode(message[2..]).value, "msg_type"))
    ensures MessageEffect(decode, split, parseBlock, s, message) == Some(s)
  {
  }

  /** Processing a message keeps the keys of the Map unique. */
  lemma MessageKeepsKeysUnique(decode: MagnetInfo.Decoder, split: MagnetInfo.Splitter, parseBlock: PayloadParser,
                               s: DownloadState, message: seq<byte>)
    requires Blocks.UniqueKeys(s.blocks)
    requires MessageEffect(decode, split, parseBlock, s, message).Some?
    ensures Blocks.UniqueKeys(MessageEffect(decode, split, parseBlock, s, message).value.blocks)
  {
    if message[0] == DownloadPieceCommand.Piece {
      var p := parseBlock(SubarrayFrom(message, 1)).value;
      var k := Blocks.BlockKey(p.pieceIndex, p.blockOffset);
      Blocks.SetSemantics(s.blocks, k, p.block, k);
    }
  }

  /** However the handler ends, the keys of the Map stay unique. */
  lemma KeepsKeysUnique(decode: MagnetInfo.Decoder, split: MagnetInfo.Splitter, parseBlock: PayloadParser,
                        s: DownloadState, buf: seq<byte>)
    ensures Blocks.UniqueKeys(s.blocks) ==>
      Blocks.UniqueKeys(Framing.Drain(Framing.Consume, Noted, Processor(decode, split, parseBlock), s, buf).state.blocks)
  {
    if Blocks.UniqueKeys(s.blocks) {
      var p := Processor(decode, split, parseBlock);
      var inv := (t: DownloadState) => Blocks.UniqueKeys(t.blocks);
      forall t, m | inv(t) && p(t, m).Some? ensures inv(p(t, m).value) {
        MessageKeepsKeysUnique(decode, split, parseBlock, t, m);
      }
      Framing.DrainPreserves(Framing.Consume, Noted, p, inv, s, buf);
    }
  }

  /**
    A keep-alive, the empty message of BEP 3 (length prefix 0), makes the
    handler throw: reading its id fails, and the keep-alive stays at the
    front of the buffer.
   */
  lemma KeepAliveThrows(decode: MagnetInfo.Decoder, split: MagnetInfo.Splitter, parseBlock: PayloadParser,
                        s: DownloadState, rest: seq<byte>)
    ensures Framing.Drain(Framing.Consume, Noted, Processor(decode, split, parseBlock), s, [0, 0, 0, 0] + rest)
      == Framing.Drained(s, [0, 0, 0, 0] + rest, true)
  {
    var buf := [0, 0, 0, 0] + rest;
    PeerWire.HandshakeResponseIff(buf);
    assert buf[4..4] == [];
  }
}
