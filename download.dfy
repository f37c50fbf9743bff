/**
  app/commands/download.js: the first piece download, talking to one peer
  in strict request/response turns. The module's `connectionState`
  collects the chunks the socket delivers; `sendPeerMessage` frames a
  message (BEP 3, "peer messages"); `downloadPiece` asks for the piece
  16 KiB block by block.

  The responses `fetchResponse` resolves with are the parameter `replies`
  of `DownloadPiece`, in order; running out of them is its timeout. The
  number of pieces comes from `splitPieces` of a module version this model
  does not contain, and is a field of `Geometry`.
 */
module Download {
  import opened Bytes
  import PeerWire

  const DefaultBlockSize: int := 16 * 1024

  const Unchoke: byte := 1
  const Interested: byte := 2
  const Request: byte := 6
  const Piece: byte := 7

  datatype Status = Unset | WaitingOnResponse | ResponseReceived

  /** Why a step throws (or rejects, for the timeout). */
  datatype Failure =
    | OutOfRange                          // a read or write past the buffer, or a value a UInt32 write refuses
    | InvalidHandshake
    | Timeout
    | UnchokeNotReceived
    | InvalidDownloadResponse(messageId: byte)

  function PayloadSize(payload: Option<seq<byte>>): nat
  {
    if payload.Some? then |payload.value| else 0
  }

  /** A message on the wire: its size (payload and id) as a big-endian UInt32, the id, the payload. */
  function PeerFrame(messageId: byte, payload: Option<seq<byte>>): (r: seq<byte>)
    requires PayloadSize(payload) + 1 < TwoTo32
    ensures |r| == 5 + PayloadSize(payload)
  {
    U32Bytes(PayloadSize(payload) + 1) + [messageId] + (if payload.Some? then payload.value else [])
  }

  /**
    The buffer `sendPeerMessage(socket, messageId, payload)` writes: a
    zero-filled buffer of 4 + size bytes with the size, the id and the
    payload written in place.
   */
  method BuildPeerMessage(messageId: byte, payload: Option<seq<byte>>) returns (buffer: array<byte>)
    requires PayloadSize(payload) + 1 < TwoTo32
    ensures fresh(buffer)
    ensures buffer[..] == PeerFrame(messageId, payload)
  {
    var messageSize := PayloadSize(payload) + 1;
    ghost var frame := PeerFrame(messageId, payload);
    ghost var body := if payload.Some? then payload.value else [];
    assert forall k :: 5 <= k < |frame| ==> frame[k] == body[k - 5];
    buffer := Alloc(4 + messageSize);
    var _ := CopyInto(buffer, 0, U32Bytes(messageSize));
    assert forall k :: 0 <= k < 4 ==> buffer[k] == frame[k];
    buffer[4] := messageId;
    if payload.Some? {
      var _ := CopyInto(buffer, 5, payload.value);
    }
    assert forall k :: 0 <= k < buffer.Length ==> buffer[k] == frame[k];
  }

  /** The module's `connectionState`. */
  class ConnectionState {
    var status: Status
    var data: seq<seq<byte>>

    constructor()
      ensures status == Unset && data == []
    {
      status := Unset;
      data := [];
    }

    /** `dataEventHandler(data)`: the chunk is kept and a response marked as received. */
    method DataEventHandler(chunk: seq<byte>)
      modifies this
      ensures status == ResponseReceived
      ensures Concat(data) == Concat(old(data)) + chunk
      ensures data == old(data) + [chunk]
    {
      status := ResponseReceived;
      data := data + [chunk];
      ConcatAppend(old(data), chunk);
    }

    /**
      One turn of `fetchResponse`'s interval: once a response is marked as
      received it resolves with all chunks joined and drops them, but it
      leaves the status as it is, so the next turn resolves at once (with
      an empty buffer if nothing came in between).
     */
    method PollResponse() returns (response: Option<seq<byte>>)
      modifies this
      ensures status == old(status)
      ensures old(status) == ResponseReceived ==> response == Some(Concat(old(data))) && data == []
      ensures old(status) != ResponseReceived ==> response == None && data == old(data)
    {
      if status == ResponseReceived {
        response := Some(Concat(data));
        data := [];
      } else {
        response := None;
      }
    }

    /** `sendPeerMessage`: the framed message is written and a response awaited. */
    method SendPeerMessage(messageId: byte, payload: Option<seq<byte>>) returns (written: array<byte>)
      requires PayloadSize(payload) + 1 < TwoTo32
      modifies this
      ensures fresh(written) && written[..] == PeerFrame(messageId, payload)
      ensures status == WaitingOnResponse && data == old(data)
    {
      written := BuildPeerMessage(messageId, payload);
      status := WaitingOnResponse;
    }
  }

  /** What `parsePeerMessageResponse` returns; `payload` is `null` (`None`) for a response of 5 bytes. */
  datatype PeerMessage = PeerMessage(messageId: byte, messageSize: nat, payload: Option<seq<byte>>)

  /** `parsePeerMessageResponse(response)`: reading the size or the id past the end throws. */
  function ParsePeerMessageResponse(response: seq<byte>): Result<PeerMessage, Failure>
  {
    if |response| < 5 then Err(OutOfRange)
    else Ok(PeerMessage(response[4], Be32(response), if |response| > 5 then Some(response[5..]) else None))
  }

  /** Parsing a message built by `sendPeerMessage` gives back its id, its size and its payload (`null` when empty). */
  lemma ParseOfPeerFrame(messageId: byte, payload: Option<seq<byte>>)
    requires PayloadSize(payload) + 1 < TwoTo32
    ensures ParsePeerMessageResponse(PeerFrame(messageId, payload))
      == Ok(PeerMessage(messageId, PayloadSize(payload) + 1, if PayloadSize(payload) > 0 then payload else None))
  {
    var f := PeerFrame(messageId, payload);
    assert f[..4] == U32Bytes(PayloadSize(payload) + 1);
    assert Be32(f) == Be32(f[..4]);
    U32RoundTrip(PayloadSize(payload) + 1);
  }

  /**
    The other way round: a response of at least 5 bytes whose size
    prefix counts the rest is rebuilt exactly from its parse; shorter
    responses throw.
   */
  lemma PeerFrameOfParse(response: seq<byte>)
    ensures ParsePeerMessageResponse(response).Err? <==> |response| < 5
    ensures |response| >= 5 && Be32(response) == |response| - 4 ==>
      var m := ParsePeerMessageResponse(response).value;
      m.messageSize == PayloadSize(m.payload) + 1 && PeerFrame(m.messageId, m.payload) == response
  {
    if |response| >= 5 && Be32(response) == |response| - 4 {
      var m := ParsePeerMessageResponse(response).value;
      assert Be32(response) == Be32(response[..4]);
      U32BytesOfBe32(response[..4]);
      assert response == response[..4] + [response[4]] + response[5..];
    }
  }

  /**
    `validateHandshakeResponse`: a reply shorter than 68 bytes, or whose
    first byte does not delimit exactly the protocol string, is rejected.
    The UTF-8 text of the bytes equals the ASCII protocol string exactly
    when the bytes are its ASCII codes.
   */
  function ValidateHandshakeResponse(response: seq<byte>): Result<(), Failure>
  {
    if |response| < PeerWire.HandshakeLength then Err(InvalidHandshake)
    else if Subarray(response, 1, response[0] as int + 1) != PeerWire.ProtocolBytes() then Err(InvalidHandshake)
    else Ok(())
  }

  /** The validation accepts exactly the replies the magnet-info recogniser accepts: 68 bytes or more, 19, the protocol. */
  lemma ValidateHandshakeResponseIff(response: seq<byte>)
    ensures ValidateHandshakeResponse(response).Ok? <==> PeerWire.IsHandshakeResponse(response)
    ensures ValidateHandshakeResponse(response).Ok? <==>
      |response| >= PeerWire.HandshakeLength && response[0] == 19 && response[1..20] == PeerWire.ProtocolBytes()
  {
    PeerWire.HandshakeResponseIff(response);
  }

  // ---------------------------------------------------------------------
  // Block sizes.
  // ---------------------------------------------------------------------

  /** The fields of `torrent.info` the download reads, with the number of piece hashes. */
  datatype Geometry = Geometry(pieceLength: int, numberOfPieces: int, length: int)

  /** `calculateBlockSize(pieceIndex, info, blockOffset)` as written. */
  function CalculateBlockSize(pieceIndex: int, info: Geometry, blockOffset: int): int
  {
    if pieceIndex + 1 < info.numberOfPieces then DefaultBlockSize
    else if blockOffset + DefaultBlockSize < info.pieceLength then DefaultBlockSize
    else info.pieceLength * info.numberOfPieces - info.length
  }

  /** The bytes piece `pieceIndex` has: the piece length, or what is left of the file for the last piece. */
  function PieceSize(pieceIndex: int, info: Geometry): int
  {
    if pieceIndex + 1 < info.numberOfPieces then info.pieceLength
    else info.length - info.pieceLength * (info.numberOfPieces - 1)
  }

  /**
    The sizes of the blocks requested at `offset`, `offset` + 16 KiB, …,
    while below `end`, added up.
   */
  function Requested(size: int -> int, offset: int, end: int): int
    decreases end - offset
  {
    if offset >= end then 0 else size(offset) + Requested(size, offset + DefaultBlockSize, end)
  }

  /**
    The last block of the last piece is given the size of the padding the
    last piece lacks, not of the bytes it has left: the two add up to the
    piece length.
   */
  lemma LastBlockIsPadding(pieceIndex: int, info: Geometry, blockOffset: int)
    requires pieceIndex + 1 >= info.numberOfPieces
    requires blockOffset + DefaultBlockSize >= info.pieceLength
    ensures CalculateBlockSize(pieceIndex, info, blockOffset) + PieceSize(pieceIndex, info) == info.pieceLength
  {
  }

  /**
    A file of 92063 bytes in three pieces of 32 KiB: the last piece has
    26527 bytes, so its second block should have 10143, but 6241 are
    requested and the blocks requested add up to 22625.
   */
  lemma LastBlockTooShort()
    ensures var info := Geometry(32768, 3, 92063);
      && PieceSize(2, info) == 26527
      && CalculateBlockSize(2, info, 16384) == 6241
      && PieceSize(2, info) - 16384 == 10143
      && Requested(o => CalculateBlockSize(2, info, o), 0, info.pieceLength) == 22625
  {
    var info := Geometry(32768, 3, 92063);
    var size := o => CalculateBlockSize(2, info, o);
    assert Requested(size, 32768, 32768) == 0;
    assert Requested(size, 16384, 32768) == 6241;
  }

  /** The block size meant: 16 KiB, or what is left of the piece for its last block. */
  function CorrectedBlockSize(pieceIndex: int, info: Geometry, blockOffset: int): int
  {
    Min(DefaultBlockSize, PieceSize(pieceIndex, info) - blockOffset)
  }

  /**
    With the corrected size, every block requested below the end of the
    piece is between 1 byte and 16 KiB, and the blocks add up to the piece.
   */
  lemma {:induction false} CorrectedBlocksTile(pieceIndex: int, info: Geometry, offset: int)
    requires 0 <= offset <= PieceSize(pieceIndex, info)
    ensures Requested(o => CorrectedBlockSize(pieceIndex, info, o), offset, PieceSize(pieceIndex, info))
      == PieceSize(pieceIndex, info) - offset
    ensures offset < PieceSize(pieceIndex, info) ==>
      0 < CorrectedBlockSize(pieceIndex, info, offset) <= DefaultBlockSize
    decreases PieceSize(pieceIndex, info) - offset
  {
    var size := o => CorrectedBlockSize(pieceIndex, info, o);
    var end := PieceSize(pieceIndex, info);
    if offset < end {
      var next := offset + DefaultBlockSize;
      if next <= end {
        CorrectedBlocksTile(pieceIndex, info, next);
      } else {
        assert Requested(size, next, end) == 0;
      }
    }
  }

  // ---------------------------------------------------------------------
  // downloadPiece.
  // ---------------------------------------------------------------------

  predicate IsUInt32(n: int) { 0 <= n < TwoTo32 }

  /** The payload of a REQUEST: piece index, block offset and block size as big-endian UInt32s. */
  function RequestPayload(pieceIndex: int, blockOffset: int, blockSize: int): (p: seq<byte>)
    requires IsUInt32(pieceIndex) && IsUInt32(blockOffset) && IsUInt32(blockSize)
    ensures |p| == 12
  {
    U32Bytes(pieceIndex) + U32Bytes(blockOffset) + U32Bytes(blockSize)
  }

  /** A REQUEST as sent parses back to id 6, size 13 and a payload holding the three numbers. */
  lemma RequestRoundTrip(pieceIndex: int, blockOffset: int, blockSize: int)
    requires IsUInt32(pieceIndex) && IsUInt32(blockOffset) && IsUInt32(blockSize)
    ensures var p := RequestPayload(pieceIndex, blockOffset, blockSize);
      && ParsePeerMessageResponse(PeerFrame(Request, Some(p))) == Ok(PeerMessage(Request, 13, Some(p)))
      && Be32(p[0..4]) == pieceIndex && Be32(p[4..8]) == blockOffset && Be32(p[8..12]) == blockSize
  {
    var p := RequestPayload(pieceIndex, blockOffset, blockSize);
    ParseOfPeerFrame(Request, Some(p));
    assert p[0..4] == U32Bytes(pieceIndex);
    assert p[4..8] == U32Bytes(blockOffset);
    assert p[8..12] == U32Bytes(blockSize);
    U32RoundTrip(pieceIndex);
    U32RoundTrip(blockOffset);
    U32RoundTrip(blockSize);
  }

  /** The messages written, and the piece or the error the download ends with. */
  datatype Transcript = Transcript(sent: seq<seq<byte>>, outcome: Result<seq<byte>, Failure>)

  /**
    The block loop of `downloadPiece` from `blockOffset` on, as written:
    each turn requests a block, reads one response into a buffer of the
    block's size (the `do … while` condition compares that buffer's own
    length, so it never repeats), checks the id and copies the whole
    buffer into the piece at the block's offset.
   */
  function Blocks(pieceIndex: int, info: Geometry, replies: seq<seq<byte>>,
                  blockOffset: nat, piece: seq<byte>, sent: seq<seq<byte>>): Transcript
    requires |piece| == info.pieceLength
    decreases info.pieceLength - blockOffset
  {
    if blockOffset >= info.pieceLength then Transcript(sent, Ok(piece))
    else
      var blockSize := CalculateBlockSize(pieceIndex, info, blockOffset);
      if !IsUInt32(pieceIndex) || !IsUInt32(blockOffset) || !IsUInt32(blockSize) then Transcript(sent, Err(OutOfRange))
      else
        var sent' := sent + [PeerFrame(Request, Some(RequestPayload(pieceIndex, blockOffset, blockSize)))];
        if |replies| == 0 then Transcript(sent', Err(Timeout))
        else
          var response := Fit(replies[0], blockSize);
          match ParsePeerMessageResponse(response)
          case Err(e) => Transcript(sent', Err(e))
          case Ok(m) =>
            if m.messageId != Piece then Transcript(sent', Err(InvalidDownloadResponse(m.messageId)))
            else Blocks(pieceIndex, info, replies[1..], blockOffset + DefaultBlockSize,
                        Overwrite(piece, blockOffset, response), sent')
  }

  /**
    `downloadPiece(socket, pieceIndex, torrent)`: INTERESTED, which must
    be answered by UNCHOKE, then the block loop over a zero-filled piece.
   */
  function DownloadPieceSpec(pieceIndex: int, info: Geometry, replies: seq<seq<byte>>): Transcript
  {
    var sent := [PeerFrame(Interested, None)];
    if |replies| == 0 then Transcript(sent, Err(Timeout))
    else match ParsePeerMessageResponse(replies[0])
      case Err(e) => Transcript(sent, Err(e))
      case Ok(m) =>
        if m.messageId != Unchoke then Transcript(sent, Err(UnchokeNotReceived))
        else if info.pieceLength < 0 then Transcript(sent, Err(OutOfRange))
        else Blocks(pieceIndex, info, replies[1..], 0, seq(info.pieceLength, _ => 0), sent)
  }

  /** The request payload, written into a zero-filled 12-byte buffer in place. */
  method BuildRequestPayload(pieceIndex: int, blockOffset: int, blockSize: int) returns (payload: array<byte>)
    requires IsUInt32(pieceIndex) && IsUInt32(blockOffset) && IsUInt32(blockSize)
    ensures fresh(payload) && payload[..] == RequestPayload(pieceIndex, blockOffset, blockSize)
  {
    payload := Alloc(12);
    var _ := CopyInto(payload, 0, U32Bytes(pieceIndex));
    var _ := CopyInto(payload, 4, U32Bytes(blockOffset));
    var _ := CopyInto(payload, 8, U32Bytes(blockSize));
    assert payload[..] == payload[0..4] + payload[4..8] + payload[8..12];
  }

  /** `downloadPiece` with the responses given in order; `sent` are the messages written. */
  method DownloadPiece(pieceIndex: int, info: Geometry, replies: seq<seq<byte>>)
    returns (sent: seq<seq<byte>>, result: Result<seq<byte>, Failure>)
    ensures Transcript(sent, result) == DownloadPieceSpec(pieceIndex, info, replies)
  {
    var interested := BuildPeerMessage(Interested, None);
    sent := [interested[..]];
    if |replies| == 0 {
      return sent, Err(Timeout);
    }
    var unchoke := ParsePeerMessageResponse(replies[0]);
    if unchoke.Err? {
      return sent, Err(unchoke.error);
    }
    if unchoke.value.messageId != Unchoke {
      return sent, Err(UnchokeNotReceived);
    }
    if info.pieceLength < 0 {
      return sent, Err(OutOfRange);
    }
    var pieceBuffer := Alloc(info.pieceLength);
    var blockOffset := 0;
    var next := 1;
    assert pieceBuffer[..] == seq(info.pieceLength, _ => 0);
    ghost var outcome := Blocks(pieceIndex, info, replies[1..], 0, pieceBuffer[..], sent);
    while blockOffset < info.pieceLength
      invariant 1 <= next <= |replies|
      invariant pieceBuffer.Length == info.pieceLength
      invariant outcome == Blocks(pieceIndex, info, replies[next..], blockOffset, pieceBuffer[..], sent)
      decreases info.pieceLength - blockOffset
    {
      ghost var before := pieceBuffer[..];
      var blockSize := CalculateBlockSize(pieceIndex, info, blockOffset);
      if !IsUInt32(pieceIndex) || !IsUInt32(blockOffset) || !IsUInt32(blockSize) {
        return sent, Err(OutOfRange);
      }
      var payload := BuildRequestPayload(pieceIndex, blockOffset, blockSize);
      var request := BuildPeerMessage(Request, Some(payload[..]));
      sent := sent + [request[..]];
      var response := Alloc(blockSize);
      if next == |replies| {
        return sent, Err(Timeout);
      }
      var subResponse := replies[next];
      assert replies[next..][1..] == replies[next + 1..];
      next := next + 1;
      OverwriteZeros(blockSize, subResponse);
      assert response[..] == seq(blockSize, _ => 0);
      var _ := CopyInto(response, 0, subResponse);
      var parsed := ParsePeerMessageResponse(response[..]);
      if parsed.Err? {
        return sent, Err(parsed.error);
      }
      if parsed.value.messageId != Piece {
        return sent, Err(InvalidDownloadResponse(parsed.value.messageId));
      }
      var _ := CopyInto(pieceBuffer, blockOffset, response[..]);
      blockOffset := blockOffset + DefaultBlockSize;
    }
    return sent, Ok(pieceBuffer[..]);
  }

  // ---------------------------------------------------------------------
  // What the piece holds.
  // ---------------------------------------------------------------------

  /** A later block never writes below its own offset: the piece up to `blockOffset` is final. */
  lemma {:induction false} BlocksKeepPrefix(pieceIndex: int, info: Geometry, replies: seq<seq<byte>>,
                                            blockOffset: nat, piece: seq<byte>, sent: seq<seq<byte>>)
    requires |piece| == info.pieceLength
    ensures var t := Blocks(pieceIndex, info, replies, blockOffset, piece, sent);
      t.outcome.Ok? ==>
        (|t.outcome.value| == |piece| &&
         forall k :: 0 <= k < Min(blockOffset, |piece|) ==> t.outcome.value[k] == piece[k])
    decreases info.pieceLength - blockOffset
  {
    if blockOffset < info.pieceLength {
      var blockSize := CalculateBlockSize(pieceIndex, info, blockOffset);
      if IsUInt32(pieceIndex) && IsUInt32(blockOffset) && IsUInt32(blockSize) && |replies| > 0 {
        var response := Fit(replies[0], blockSize);
        var sent' := sent + [PeerFrame(Request, Some(RequestPayload(pieceIndex, blockOffset, blockSize)))];
        var piece' := Overwrite(piece, blockOffset, response);
        BlocksKeepPrefix(pieceIndex, info, replies[1..], blockOffset + DefaultBlockSize, piece', sent');
        forall k | 0 <= k < Min(blockOffset, |piece|)
          ensures piece'[k] == piece[k]
        {
          OverwriteAt(piece, blockOffset, response, k);
        }
      }
    }
  }

  /** A turn of the block loop that does not end the download: the block's response was a PIECE. */
  lemma BlocksStep(pieceIndex: int, info: Geometry, replies: seq<seq<byte>>,
                   blockOffset: nat, piece: seq<byte>, sent: seq<seq<byte>>)
    requires |piece| == info.pieceLength && blockOffset < info.pieceLength
    requires Blocks(pieceIndex, info, replies, blockOffset, piece, sent).outcome.Ok?
    ensures var blockSize := CalculateBlockSize(pieceIndex, info, blockOffset);
      && IsUInt32(pieceIndex) && IsUInt32(blockOffset) && IsUInt32(blockSize) && |replies| > 0
      && ParsePeerMessageResponse(Fit(replies[0], blockSize)).Ok?
      && ParsePeerMessageResponse(Fit(replies[0], blockSize)).value.messageId == Piece
      && Blocks(pieceIndex, info, replies, blockOffset, piece, sent)
         == Blocks(pieceIndex, info, replies[1..], blockOffset + DefaultBlockSize,
                   Overwrite(piece, blockOffset, Fit(replies[0], blockSize)),
                   sent + [PeerFrame(Request, Some(RequestPayload(pieceIndex, blockOffset, blockSize)))])
  {
  }

  /**
    The response buffer is copied whole, header included: in every piece
    of at least 5 bytes that downloads, byte 4 is the PIECE id 7 of the
    first response, and bytes 0..3 are that response's size prefix, not
    block data.
   */
  lemma PieceStartsWithHeader(pieceIndex: int, info: Geometry, replies: seq<seq<byte>>)
    requires DownloadPieceSpec(pieceIndex, info, replies).outcome.Ok?
    requires info.pieceLength >= 5
    ensures var piece := DownloadPieceSpec(pieceIndex, info, replies).outcome.value;
      && |replies| >= 2 && |piece| == info.pieceLength && piece[4] == Piece
      && piece[..4] == Fit(replies[1], CalculateBlockSize(pieceIndex, info, 0))[..4]
  {
    var zeros := seq(info.pieceLength, _ => 0);
    var sent := [PeerFrame(Interested, None)];
    assert DownloadPieceSpec(pieceIndex, info, replies) == Blocks(pieceIndex, info, replies[1..], 0, zeros, sent);
    BlocksStep(pieceIndex, info, replies[1..], 0, zeros, sent);
    var blockSize := CalculateBlockSize(pieceIndex, info, 0);
    var response := Fit(replies[1], blockSize);
    var sent' := sent + [PeerFrame(Request, Some(RequestPayload(pieceIndex, 0, blockSize)))];
    var piece' := Overwrite(zeros, 0, response);
    assert replies[1..][1..] == replies[2..];
    var t := Blocks(pieceIndex, info, replies[2..], DefaultBlockSize, piece', sent');
    assert DownloadPieceSpec(pieceIndex, info, replies) == t;
    BlocksKeepPrefix(pieceIndex, info, replies[2..], DefaultBlockSize, piece', sent');
    var piece := t.outcome.value;
    assert |piece| == info.pieceLength;
    forall k | 0 <= k < 5
      ensures piece[k] == response[k]
    {
      OverwriteAt(zeros, 0, response, k);
    }
    assert piece[..4] == response[..4];
  }

  /** The message a peer sends for a block: PIECE, the piece index, the offset, then the block. */
  function PieceReply(pieceIndex: int, begin: int, block: seq<byte>): seq<byte>
    requires IsUInt32(pieceIndex) && IsUInt32(begin) && 9 + |block| < TwoTo32
  {
    PeerFrame(Piece, Some(U32Bytes(pieceIndex) + U32Bytes(begin) + block))
  }

  /** The block as meant: a PIECE response less its 13 header bytes, copied in at its offset. */
  function StoreBlock(piece: seq<byte>, blockOffset: nat, response: seq<byte>): (r: seq<byte>)
    requires blockOffset <= |piece|
    ensures |r| == |piece|
  {
    Overwrite(piece, blockOffset, SubarrayFrom(response, 13))
  }

  /** Storing a peer's PIECE message puts exactly its block at the offset and changes nothing else. */
  lemma StoreBlockOfPieceReply(piece: seq<byte>, pieceIndex: int, begin: nat, block: seq<byte>)
    requires IsUInt32(pieceIndex) && IsUInt32(begin) && 9 + |block| < TwoTo32
    requires begin + |block| <= |piece|
    ensures var r := StoreBlock(piece, begin, PieceReply(pieceIndex, begin, block));
      && r[begin..begin + |block|] == block
      && r[..begin] == piece[..begin] && r[begin + |block|..] == piece[begin + |block|..]
  {
    var reply := PieceReply(pieceIndex, begin, block);
    assert SubarrayFrom(reply, 13) == block;
  }
}
