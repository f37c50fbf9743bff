/**
  app/commands/download-piece.js: the module `state` (the `blocks` Map,
  the connection status and the incoming buffer), its framing loop, which
  empties the whole buffer when a handshake is at its front, the handling
  of PIECE and UNCHOKE messages, and the batching of block requests in
  `downloadPiece`.

  `parsePeerMessage`, `parseBlockPayload`, `createBlockRequest`,
  `calculatePieceLength` and `BLOCK_REQUEST_SIZE` come from a module
  version this model does not contain: they are parameters, the parsers
  returning `None` where they throw. The ids are those of BEP 3 (UNCHOKE
  1, PIECE 7).
 */
module DownloadPieceCommand {
  import opened Bytes
  import PeerWire
  import Framing
  import Blocks

  const Unchoke: int := 1
  const Piece: int := 7

  datatype PeerConnectionStatus = Pending | HandshakeReceived | UnchokeReceived

  /** What `parsePeerMessage` returns. */
  datatype ParsedMessage = ParsedMessage(messageId: int, payload: seq<byte>)

  /** What `parseBlockPayload` returns. */
  datatype BlockPayload = BlockPayload(pieceIndex: nat, blockOffset: nat, block: seq<byte>)

  type MessageParser = seq<byte> -> Option<ParsedMessage>
  type PayloadParser = seq<byte> -> Option<BlockPayload>

  datatype PieceState = PieceState(connectionStatus: PeerConnectionStatus, blocks: seq<Blocks.Entry>)

  /**
    The state after `processPeerMessage(message)`, or `None` when a parser
    throws: a PIECE stores its block under its key, UNCHOKE is recorded,
    any other id is only logged.
   */
  function MessageEffect(parse: MessageParser, parseBlock: PayloadParser, s: PieceState, message: seq<byte>)
    : Option<PieceState>
  {
    match parse(message)
    case None => None
    case Some(m) =>
      if m.messageId == Piece then
        match parseBlock(m.payload)
        case None => None
        case Some(p) =>
          Some(s.(blocks := Blocks.Set(s.blocks, Blocks.BlockKey(p.pieceIndex, p.blockOffset), p.block)))
      else if m.messageId == Unchoke then Some(s.(connectionStatus := UnchokeReceived))
      else Some(s)
  }

  /** A handshake at the front of the buffer sets the status. */
  function Noted(s: PieceState): PieceState
  {
    s.(connectionStatus := HandshakeReceived)
  }

  function Processor(parse: MessageParser, parseBlock: PayloadParser): (PieceState, seq<byte>) -> Option<PieceState>
  {
    (s: PieceState, message: seq<byte>) => MessageEffect(parse, parseBlock, s, message)
  }

  class State {
    const parsePeerMessage: MessageParser
    const parseBlockPayload: PayloadParser
    var blocks: seq<Blocks.Entry>
    var connectionStatus: PeerConnectionStatus
    var incomingBuffer: seq<byte>

    function Snapshot(): PieceState
      reads this
    {
      PieceState(connectionStatus, blocks)
    }

    /** The `blocks` Map holds each key once. */
    predicate Valid()
      reads this
    {
      Blocks.UniqueKeys(blocks)
    }

    constructor(parsePeerMessage: MessageParser, parseBlockPayload: PayloadParser)
      ensures this.parsePeerMessage == parsePeerMessage && this.parseBlockPayload == parseBlockPayload
      ensures Snapshot() == PieceState(Pending, []) && incomingBuffer == []
      ensures Valid()
    {
      this.parsePeerMessage := parsePeerMessage;
      this.parseBlockPayload := parseBlockPayload;
      blocks := [];
      connectionStatus := Pending;
      incomingBuffer := [];
    }

    /** `processPeerMessage(message)`; `false` when it throws, the state then unchanged. */
    method ProcessPeerMessage(message: seq<byte>) returns (ok: bool)
      requires Valid()
      modifies this
      ensures Valid()
      ensures incomingBuffer == old(incomingBuffer)
      ensures ok <==> MessageEffect(parsePeerMessage, parseBlockPayload, old(Snapshot()), message).Some?
      ensures ok ==> Snapshot() == MessageEffect(parsePeerMessage, parseBlockPayload, old(Snapshot()), message).value
      ensures !ok ==> Snapshot() == old(Snapshot())
    {
      if MessageEffect(parsePeerMessage, parseBlockPayload, Snapshot(), message).Some? {
        MessageKeepsKeysUnique(parsePeerMessage, parseBlockPayload, Snapshot(), message);
      }
      var parsed := parsePeerMessage(message);
      if parsed.None? {
        return false;
      }
      if parsed.value.messageId == Piece {
        var payload := parseBlockPayload(parsed.value.payload);
        if payload.None? {
          return false;
        }
        blocks := Blocks.Set(blocks, Blocks.BlockKey(payload.value.pieceIndex, payload.value.blockOffset),
                             payload.value.block);
        return true;
      }
      if parsed.value.messageId == Unchoke {
        connectionStatus := UnchokeReceived;
        return true;
      }
      return true;
    }

    /**
      `dataEventHandler(chunk)`: the chunk is appended and the buffer
      framed; a handshake at the front empties the buffer and ends the
      handler. It ends as `Drain` with the `Discard` rule says.
     */
    method DataEventHandler(chunk: seq<byte>) returns (threw: bool)
      requires Valid()
      modifies this
      ensures Valid()
      ensures Framing.Drain(Framing.Discard, Noted, Processor(parsePeerMessage, parseBlockPayload),
                            old(Snapshot()), old(incomingBuffer) + chunk)
              == Framing.Drained(Snapshot(), incomingBuffer, threw)
    {
      ghost var p := Processor(parsePeerMessage, parseBlockPayload);
      ghost var start := Snapshot();
      incomingBuffer := incomingBuffer + chunk;
      ghost var outcome := Framing.Drain(Framing.Discard, Noted, p, Snapshot(), incomingBuffer);
      while |incomingBuffer| >= 4
        invariant outcome == Framing.Drain(Framing.Discard, Noted, p, Snapshot(), incomingBuffer)
        invariant outcome == Framing.Drain(Framing.Discard, Noted, p, start, old(incomingBuffer) + chunk)
        invariant Valid()
        decreases |incomingBuffer|
      {
        ghost var before := Snapshot();
        ghost var buffer := incomingBuffer;
        if PeerWire.IsHandshakeResponse(incomingBuffer) {
          connectionStatus := HandshakeReceived;
          incomingBuffer := [];
          assert Snapshot() == Noted(before);
          return false;
        }
        var messageLength := Be32(incomingBuffer);
        if |incomingBuffer| < messageLength + 4 {
          break;
        }
        var message := Subarray(incomingBuffer, 4, 4 + messageLength);
        assert p(before, message) == MessageEffect(parsePeerMessage, parseBlockPayload, before, message);
        var ok := ProcessPeerMessage(message);
        if !ok {
          return true;
        }
        Framing.DrainFrameStep(Framing.Discard, Noted, p, before, buffer);
        incomingBuffer := Subarray(incomingBuffer, 4 + messageLength, |incomingBuffer|);
        assert incomingBuffer == buffer[4 + messageLength..];
      }
      return false;
    }
  }

  /**
    A PIECE message stores its block under (pieceIndex, blockOffset),
    replacing an earlier block there; every other key keeps its block and
    the status does not change.
   */
  lemma PieceStored(parse: MessageParser, parseBlock: PayloadParser, s: PieceState, message: seq<byte>,
                    payload: seq<byte>, p: BlockPayload, other: Blocks.BlockKey)
    requires Blocks.UniqueKeys(s.blocks)
    requires parse(message) == Some(ParsedMessage(Piece, payload)) && parseBlock(payload) == Some(p)
    ensures var r := MessageEffect(parse, parseBlock, s, message);
      var k := Blocks.BlockKey(p.pieceIndex, p.blockOffset);
      && r.Some?
      && Blocks.Lookup(r.value.blocks, k) == Some(p.block)
      && (other != k ==> Blocks.Lookup(r.value.blocks, other) == Blocks.Lookup(s.blocks, other))
      && r.value.connectionStatus == s.connectionStatus
  {
    Blocks.SetSemantics(s.blocks, Blocks.BlockKey(p.pieceIndex, p.blockOffset), p.block, other);
  }

  /** UNCHOKE sets the status; any id but PIECE and UNCHOKE changes nothing. */
  lemma OtherMessages(parse: MessageParser, parseBlock: PayloadParser, s: PieceState, message: seq<byte>, m: ParsedMessage)
    requires parse(message) == Some(m) && m.messageId != Piece
    ensures MessageEffect(parse, parseBlock, s, message)
      == Some(if m.messageId == Unchoke then s.(connectionStatus := UnchokeReceived) else s)
  {
  }

  /** Processing a message keeps the keys of the Map unique. */
  lemma MessageKeepsKeysUnique(parse: MessageParser, parseBlock: PayloadParser, s: PieceState, message: seq<byte>)
    requires Blocks.UniqueKeys(s.blocks)
    requires MessageEffect(parse, parseBlock, s, message).Some?
    ensures Blocks.UniqueKeys(MessageEffect(parse, parseBlock, s, message).value.blocks)
  {
    var m := parse(message).value;
    if m.messageId == Piece {
      var p := parseBlock(m.payload).value;
      var k := Blocks.BlockKey(p.pieceIndex, p.blockOffset);
      Blocks.SetSemantics(s.blocks, k, p.block, k);
    }
  }

  /** However the handler ends, the keys of the Map stay unique. */
  lemma KeepsKeysUnique(parse: MessageParser, parseBlock: PayloadParser, s: PieceState, buf: seq<byte>)
    ensures Blocks.UniqueKeys(s.blocks) ==>
      Blocks.UniqueKeys(Framing.Drain(Framing.Discard, Noted, Processor(parse, parseBlock), s, buf).state.blocks)
  {
    if Blocks.UniqueKeys(s.blocks) {
      var p := Processor(parse, parseBlock);
      var inv := (t: PieceState) => Blocks.UniqueKeys(t.blocks);
      forall t, m | inv(t) && p(t, m).Some? ensures inv(p(t, m).value) {
        MessageKeepsKeysUnique(parse, parseBlock, t, m);
      }
      Framing.DrainPreserves(Framing.Discard, Noted, p, inv, s, buf);
    }
  }

  /**
    A handshake and an UNCHOKE delivered in one chunk: the UNCHOKE is
    thrown away with the buffer, and the status stays at handshake
    received. Delivered in a later chunk, it is recorded.
   */
  lemma UnchokeAfterHandshakeLost(parse: MessageParser, parseBlock: PayloadParser, s: PieceState,
                                  h: seq<byte>, unchoke: seq<byte>)
    requires Framing.WellFormed(Framing.Handshake(h)) && Framing.WellFormed(Framing.Frame(unchoke))
    requires parse(unchoke) == Some(ParsedMessage(Unchoke, []))
    ensures var p := Processor(parse, parseBlock);
      var f := Framing.UnitBytes(Framing.Frame(unchoke));
      && Framing.Drain(Framing.Discard, Noted, p, s, h + f) == Framing.Drained(Noted(s), [], false)
      && Framing.Drain(Framing.Discard, Noted, p, Noted(s), f)
         == Framing.Drained(PieceState(UnchokeReceived, s.blocks), [], false)
  {
    var p := Processor(parse, parseBlock);
    Framing.DiscardLosesFollowingFrame(Noted, p, s, h, unchoke);
    assert p(Noted(s), unchoke) == Some(PieceState(UnchokeReceived, s.blocks));
  }

  // ---------------------------------------------------------------------
  // Batching the block requests.
  // ---------------------------------------------------------------------

  /**
    The socket writes `downloadPiece` makes from `requests`, with `pending`
    already in the outgoing buffer: each request is appended to the buffer,
    and the buffer is written as soon as it holds at least `maximum` bytes,
    or once the last request is in it.
   */
  function Batches(requests: seq<seq<byte>>, maximum: int, pending: seq<byte>): seq<seq<byte>>
    decreases |requests|
  {
    if requests == [] then []
    else
      var buffered := pending + requests[0];
      if |buffered| >= maximum || |requests| == 1 then [buffered] + Batches(requests[1..], maximum, [])
      else Batches(requests[1..], maximum, buffered)
  }

  /** Every write but the last holds at least `maximum` bytes. */
  predicate FullButLast(written: seq<seq<byte>>, maximum: int)
  {
    |written| <= 1 || (|written[0]| >= maximum && FullButLast(written[1..], maximum))
  }

  /** Every write is at most `bound` bytes long. */
  predicate AllBelow(written: seq<seq<byte>>, bound: int)
  {
    written == [] || (|written[0]| < bound && AllBelow(written[1..], bound))
  }

  /** Every request is at most `longest` bytes long. */
  predicate AtMost(requests: seq<seq<byte>>, longest: int)
  {
    requests == [] || (|requests[0]| <= longest && AtMost(requests[1..], longest))
  }

  /** The writes carry the pending bytes and then every request, in order, and nothing else. */
  lemma {:induction false} BatchesConcat(requests: seq<seq<byte>>, maximum: int, pending: seq<byte>)
    requires requests != [] || pending == []
    ensures Concat(Batches(requests, maximum, pending)) == pending + Concat(requests)
    decreases |requests|
  {
    if requests != [] {
      var buffered := pending + requests[0];
      if |buffered| >= maximum || |requests| == 1 {
        BatchesConcat(requests[1..], maximum, []);
        var rest := Batches(requests[1..], maximum, []);
        assert ([buffered] + rest)[1..] == rest;
      } else {
        BatchesConcat(requests[1..], maximum, buffered);
      }
    }
  }

  /** A write is made before the threshold is reached only for the last request. */
  lemma {:induction false} BatchesFull(requests: seq<seq<byte>>, maximum: int, pending: seq<byte>)
    ensures FullButLast(Batches(requests, maximum, pending), maximum)
    decreases |requests|
  {
    if requests != [] {
      var buffered := pending + requests[0];
      if |buffered| >= maximum || |requests| == 1 {
        BatchesFull(requests[1..], maximum, []);
        var rest := Batches(requests[1..], maximum, []);
        assert ([buffered] + rest)[1..] == rest;
      } else {
        BatchesFull(requests[1..], maximum, buffered);
      }
    }
  }

  /**
    No write goes past the threshold by more than one request: the buffer
    is below `maximum` bytes before each request is appended, so with
    requests of at most `longest` bytes every write is shorter than
    `maximum + longest`.
   */
  lemma {:induction false} BatchesBounded(requests: seq<seq<byte>>, maximum: int, pending: seq<byte>, longest: int)
    requires |pending| < maximum && AtMost(requests, longest)
    ensures AllBelow(Batches(requests, maximum, pending), maximum + longest)
    decreases |requests|
  {
    if requests != [] {
      var buffered := pending + requests[0];
      if |buffered| >= maximum || |requests| == 1 {
        BatchesBounded(requests[1..], maximum, [], longest);
        var rest := Batches(requests[1..], maximum, []);
        assert ([buffered] + rest)[1..] == rest;
      } else {
        BatchesBounded(requests[1..], maximum, buffered, longest);
      }
    }
  }

  /** Writing the buffer moves it from the writes still to come to the writes made. */
  lemma WriteOne(written: seq<seq<byte>>, buffered: seq<byte>, rest: seq<seq<byte>>)
    ensures written + [buffered] + rest == written + ([buffered] + rest)
  {
  }

  /**
    The batching loop of `downloadPiece`: each block's request is
    appended to the outgoing buffer, which is written once it holds at
    least `MAXIMUM_OUTGOING_BUFFER_SIZE` bytes or the last block has been
    requested. `written` are the socket writes, in order.
   */
  method DownloadPiece(create: Blocks.RequestMaker, calculatedPieceLength: int, blockRequestSize: int)
    returns (written: seq<seq<byte>>, totalBlockCount: nat)
    requires Blocks.PositiveSizes(create)
    ensures written == Batches(Blocks.Requests(create, calculatedPieceLength, 0), 2 * blockRequestSize, [])
    ensures Concat(written) == Concat(Blocks.Requests(create, calculatedPieceLength, 0))
    ensures totalBlockCount == |Blocks.Requests(create, calculatedPieceLength, 0)|
    ensures FullButLast(written, 2 * blockRequestSize)
  {
    var maximum := blockRequestSize * 2;
    var blockOffset := 0;
    totalBlockCount := 0;
    written := [];
    var outgoingBuffer: seq<byte> := [];
    ghost var all := Blocks.Requests(create, calculatedPieceLength, 0);
    while blockOffset < calculatedPieceLength
      invariant written + Batches(Blocks.Requests(create, calculatedPieceLength, blockOffset), maximum, outgoingBuffer)
                == Batches(all, maximum, [])
      invariant totalBlockCount + |Blocks.Requests(create, calculatedPieceLength, blockOffset)| == |all|
      decreases calculatedPieceLength - blockOffset
    {
      var request := create(blockOffset);
      ghost var requests := Blocks.Requests(create, calculatedPieceLength, blockOffset);
      ghost var later := Blocks.Requests(create, calculatedPieceLength, blockOffset + request.blockSize);
      assert requests[0] == request.peerMessage && requests[1..] == later;
      outgoingBuffer := outgoingBuffer + request.peerMessage;
      blockOffset := blockOffset + request.blockSize;
      totalBlockCount := totalBlockCount + 1;
      if |outgoingBuffer| >= maximum || blockOffset >= calculatedPieceLength {
        WriteOne(written, outgoingBuffer, Batches(later, maximum, []));
        written := written + [outgoingBuffer];
        outgoingBuffer := [];
        if blockOffset >= calculatedPieceLength {
          BatchesConcat(all, maximum, []);
          BatchesFull(all, maximum, []);
          return;
        }
      }
    }
    BatchesConcat(all, maximum, []);
    BatchesFull(all, maximum, []);
  }
}
