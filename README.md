# bittorrent-clone in Dafny

A model of the core of `bittorrent-clone`, a BitTorrent client written in
JavaScript as a series of iterations, each one a command file. Every
iteration is modelled as written, one Dafny module per source file, and
the iterations are not merged. The model covers:

- **the bencode codec** (BEP 3, "bencoding"):
  - the first decoder, which reads byte-strings and integers from text (`Decoder`);
  - the recursive encoder over strings, numbers, arrays and objects (`Encoder`), with a reference reader and the round trip through it;
  - the byte-level helpers `encodeBuffer`, `encodeString` and `encodeInteger` (`UtilsEncoder`);
- **metainfo derivation** (BEP 3, "metainfo files"):
  - the three copies of the info-hash pre-image (`UtilsTorrent`, `Common`, `CommandsCommon`), proved byte-identical to each other (with `HASH_LENGTH`) and, for ASCII names, to the bencoding of the info dictionary;
  - piece-hash splitting (`InfoCommand`);
  - random peer ids over `A`-`Z0`-`9`;
  - compact peer decoding (BEP 23) and the percent-encoding of the info hash (`Peers`);
- **handshake messages** (the handshake of BEP 3 and the reserved extension bit of BEP 10):
  - the 68-byte request builders, which fill an `array` in place (`UtilsMagnet`, `HandshakeCommand`);
  - the reply recognisers and parsers (`PeerWire`, `MagnetHandshake`);
- **the framing loops** (BEP 3, "peer messages"). Four handlers reassemble 4-byte big-endian length-prefixed messages from an incoming buffer:
  - each handler is a class whose `DataEventHandler` loop is proved to end exactly as `Framing.Drain` says;
  - `Framing.Drain` is the loop as a function, parameterised by what a handshake does and how a message changes the handler's state;
  - its lemmas state how the loop stops, that whole units are removed in order, and that the way bytes are chunked does or does not matter;
- **block download** (`Download`, `DownloadPieceCommand`, `MagnetDownloadCommand`, `Blocks`):
  - frame building and parsing, and the block-size arithmetic;
  - the strict request/response block loop of the first iteration;
  - the batching of block requests in the two later iterations;
  - the `(pieceIndex, blockOffset)` block map, the reassembly in key order, and the piece-hash check;
- **the ut_metadata extension** (BEP 10, and the "data" message of BEP 9): recording the peer's extension id, and reading the metadata from the last `total_size` bytes of a message.

The model's conventions:

- JavaScript exceptions are `Err`/`None` results.
- Buffers are `seq<byte>`, or `array<byte>` where the source fills one in place.
- JavaScript strings are `seq<char>`.
- A bencoded dictionary is an ordered sequence of key-value pairs.
- Several functions come from module versions that are not part of this model: `decodeBencode` of `utils/decoder`, `splitPieceHashes`, `parsePeerMessage`, `parseBlockPayload`, `createBlockRequest`, `calculatePieceLength`, `createMetadataRequest`, `MessageId.EXTENDED` and `BLOCK_REQUEST_SIZE`. Each is a function-typed parameter or a constant field of the class that uses it. The only assumption made is the one a loop needs to end: every block `createBlockRequest` sizes is positive (`Blocks.PositiveSizes`).
- `isHandshakeResponse` is the definition in app/commands/magnet-info.js, reused by every framing loop.
- SHA-1 is an uninterpreted function `sha1: seq<byte> -> seq<byte>`.
- `Math.random()` is a sequence of picks in `[0, 36)`.
- The responses a command waits for are an input sequence, and the bytes written to a socket are returned as a sequence of writes.

## Model

| member | source | states |
|---|---|---|
| Decoder.StringBranch | app/decoder.js:14-20 | A digit run, a colon and any text decode to that text, whatever length the digits declare. |
| Decoder.StringBranchAt | app/decoder.js:15-20 | Input that starts with a digit run followed by a colon decodes to everything after that first colon. |
| Decoder.NoColonFails | app/decoder.js:15-18 | Digit-leading input with no colon fails with 'Invalid encoded value'. |
| Decoder.IntegerBranch | app/decoder.js:10-11 | `i`, a body and any last character decode to `Number(body)`; the last character is never checked to be `e`. |
| Decoder.IntegerBranchAt | app/decoder.js:10-11 | Input of two or more characters starting with `i` decodes to `Number` of everything strictly between the first and last characters. |
| Decoder.LoneI | app/decoder.js:11 | For the input `i`, `substring(1, 0)` swaps its arguments, and the result is NaN. |
| Decoder.UnsupportedFirstCharacter | app/decoder.js:7-13 | Empty input, and input whose first character is neither a digit, white space nor `i`, fail with the 'Unsupported encoding' error naming the input. |
| Decoder.ErrorCases | app/decoder.js:9-18 | 'Invalid encoded value' is raised exactly for a non-empty input whose first character converts to a number and which has no colon. |
| Decoder.LeadingSpaceIsAString | app/decoder.js:9 | `isNaN(' ')` is false, so a leading space selects the string branch. |
| Decoder.TestHello | app/decoder.test.js:3-5 | `5:hello` decodes to `hello`. |
| Decoder.TestLongerString | app/decoder.test.js:7-9 | `10:hello12345` decodes to `hello12345`. |
| Decoder.TestPositiveInteger | app/decoder.test.js:11-17 | `i54e` decodes to 54. |
| Decoder.TestNegativeInteger | app/decoder.test.js:19-25 | `i-54e` decodes to -54. |
| Decoder.TestUnsupported | app/decoder.test.js:27-29 | `a54e` fails with the unsupported-encoding error. |
| Encoder.EncodeSucceedsIffEncodable | app/encoder.js:1-15 | `encode` succeeds exactly when no null or other unsupported value occurs anywhere in the value; otherwise it fails with 'Unsupported value type'. |
| Encoder.ItemsSucceedIffEncodable | app/encoder.js:6-7 | An array's elements encode exactly when each of them does. |
| Encoder.EntriesSucceedIffEncodable | app/encoder.js:8-11 | An object's entries encode exactly when each value does. |
| Encoder.ReadEncode | app/encoder.js:1-15 | Round trip: the reference reader reads `encode(v)` followed by any text back as `v` and that text. |
| Encoder.ReadEncodeItems | app/encoder.js:6-7 | The element encodings followed by `e` read back as the same elements in the same order. |
| Encoder.ReadEncodeEntries | app/encoder.js:8-11 | The entry encodings followed by `e` read back as the same entries in entry order; keys are not re-sorted. |
| Encoder.EncodeStringLayout | app/encoder.js:2-3 | A string encodes to its decimal length, `:` and the string itself. |
| Encoder.EmptyListIsLe | app/encoder.js:7 | The empty array encodes to `le`. |
| Encoder.NullInsideThrows | app/encoder.js:12-13 | A null anywhere in an array makes the whole encoding fail. |
| Encoder.DecodeEncodedString | app/encoder.js:3 | `decodeBencode(encode(s)) == s` for every string. |
| Encoder.DecodeEncodedInteger | app/encoder.js:5 | `decodeBencode(encode(n)) == n` for every integer. |
| UtilsEncoder.EncodeBufferLayout | app/utils/encoder.js:3-5 | `encodeBuffer(b)` is the decimal length of `b`, `:`, then `b` unchanged. |
| UtilsEncoder.EncodeBufferRoundTrip | app/utils/encoder.js:3-5 | Reading a byte-string back from `encodeBuffer(b)` followed by any bytes gives `b` and those bytes. |
| UtilsEncoder.AgreesWithEncode | app/utils/encoder.js:7-13 | `encodeString` and `encodeInteger` agree with `encode` of app/encoder.js on strings and integers. |
| UtilsEncoder.EncodeStringRoundTrip | app/utils/encoder.js:7-9 | `encodeString(s)` followed by any text reads back as `s` and that text. |
| UtilsEncoder.EncodeIntegerRoundTrip | app/utils/encoder.js:11-13 | `encodeInteger(n)` followed by any text reads back as `n` and that text. |
| UtilsEncoder.EncodeBufferOfText | app/utils/encoder.js:3-9 | For text, `encodeBuffer` of its bytes is the bytes of `encodeString`. |
| UtilsTorrent.GeneratePeerId | app/utils/torrent.js:5-15 | The loop appends one alphabet character per pick, `length` of them (none for a negative length). |
| UtilsTorrent.PeerIdShape | app/utils/torrent.js:6-12 | A generated id has one character per pick, each from `A`-`Z` or `0`-`9`. |
| UtilsTorrent.EveryIdReachable | app/utils/torrent.js:6-11 | Conversely, every string over that alphabet is the id of some picks. |
| UtilsTorrent.PreImageIsBencodedDictionary | app/utils/torrent.js:21-33 | With text as one byte per character (so for ASCII names), the pre-image is the bencoding of the dictionary {length, name, piece length, pieces}. |
| UtilsTorrent.PreImageBytes | app/utils/torrent.js:24-33 | The pre-image is `d`, the four entries, and `e`. |
| UtilsTorrent.KeysAscending | app/utils/torrent.js:26-29 | The keys appear in strictly ascending byte order. |
| UtilsTorrent.DigestIgnoresOtherFields | app/utils/torrent.js:21-36 | The pre-image and the digest depend only on the four fields. |
| UtilsTorrent.BinaryRenderingKeepsBytes | app/utils/torrent.js:17-19 | The 'binary' digest rendering keeps the digest bytes, and the 'hex' rendering has two characters per byte. |
| Common.LiteralKeyPrefixes | app/common.js:12 | The literal prefixes 6, 4, 12 and 6 are the lengths of `length`, `name`, `piece length` and `pieces`. |
| Common.DeclaredLengthIsPiecesLength | app/common.js:9-12 | With `HASH_LENGTH`, the declared pieces length reads back as the number of pieces bytes. |
| Common.ZeroHashLengthWritesNaN | app/common.js:9-12 | With `hashLength` 0 the declared length is the text `NaN`. |
| Common.SameAsUtilsTorrent | app/common.js:8-16 | With `HASH_LENGTH`, the pre-image is byte-identical to the one in app/utils/torrent.js. |
| Common.SameInfoHashAsUtilsTorrent | app/common.js:8-19 | With `HASH_LENGTH`, the info command and the handshake command report the same info hash, in either encoding. |
| CommandsCommon.GenerateRandomString | app/commands/common.js:4-14 | The loop returns exactly `length` characters (none for a negative length), each from `A`-`Z` or `0`-`9`, one per pick. |
| CommandsCommon.SameAsOtherCopies | app/commands/common.js:20-33 | The pre-image is byte-identical to the ones in app/utils/torrent.js and, with `HASH_LENGTH`, in app/common.js. |
| InfoCommand.SplitPieces | app/commands/info.js:5-11 | The loop returns the chunks of `Chunks`; empty input gives no chunks. |
| InfoCommand.ChunksFlatten | app/commands/info.js:7-8 | The chunks concatenated give back the input. |
| InfoCommand.ChunkSizes | app/commands/info.js:7-8 | Every chunk but the last has exactly `hashLength` bytes, and the last has between 1 and `hashLength`. |
| InfoCommand.ChunkCount | app/commands/info.js:7 | The number of chunks is the length of `pieces` divided by `hashLength`, rounded up, and none exactly for empty input. |
| InfoCommand.ChunkAt | app/commands/info.js:7-8 | Chunk k is the `hashLength` bytes from `k * hashLength`, cut short at the end of `pieces`. |
| Peers.ParsePeers | app/commands/peers.js:6-14 | The loop returns `AddressesOf(peers)`. |
| Peers.AddressesShape | app/commands/peers.js:8-11 | Parsing succeeds exactly when the length is a multiple of 6. Address k is rendered from bytes `6k..6k+6`, in input order. |
| Peers.ReadAddressOfAddress | app/commands/peers.js:10 | An address reads back as its six bytes: four dotted decimals, then the big-endian port. |
| Peers.PercentEncodingShape | app/commands/peers.js:16-21 | Encoding adds one `%` per pair of characters, and removing every `%` gives the input back. |
| Peers.InfoHashEncoding | app/commands/peers.js:16-21 | A 40-digit hex hash encodes to 60 characters, from which removing `%` restores the hash. |
| Peers.EmptyHashThrows | app/commands/peers.js:18 | The empty hash fails because `match` finds no groups. |
| UtilsMagnet.CreateMagnetHandshakeRequest | app/utils/magnet.js:4-34 | The in-place writes leave the 68-byte `MagnetRequest` for the info hash and the generated peer id. |
| UtilsMagnet.MagnetRequestFields | app/utils/magnet.js:5-31 | Byte 0 is 19, then `BitTorrent protocol`; reserved bytes are zero except byte 25 = 0x10; then the hex-decoded hash and the peer id. |
| UtilsMagnet.MagnetRequestCarriesDigest | app/utils/magnet.js:30 | Bytes 28..47 are the digest whose lowercase hex is the info hash. |
| UtilsMagnet.OnlyPeerIdDiffers | app/utils/magnet.js:5-31 | Two requests for the same hash agree on bytes 0..47. |
| UtilsMagnet.MagnetRequestParses | app/utils/magnet.js:21-31 | The request is recognised as a handshake, and parses as supporting extensions with the hex of its peer id. |
| HandshakeCommand.BuildRequest | app/commands/handshake.js:22-27 | The in-place writes leave the 68-byte request with zero reserved bytes. |
| HandshakeCommand.RequestFields | app/commands/handshake.js:22-27 | Byte 0 is 19, then the protocol, zero reserved bytes, the info hash and the peer id; it parses as not supporting extensions. |
| HandshakeCommand.ReplyPeerIdFields | app/commands/handshake.js:15 | The reported peer id is the 40-character lowercase hex of reply bytes 48..67, and it determines those bytes. |
| HandshakeCommand.HostPortOf | app/commands/handshake.js:8 | `host:port` splits into host and port. |
| PeerWire.HandshakeResponseIff | app/commands/magnet-info.js:17-26 | A buffer is a handshake response exactly when it has at least 68 bytes, byte 0 is 19 and bytes 1..19 spell `BitTorrent protocol`. |
| PeerWire.HandshakeResponsePrefix | app/commands/magnet-info.js:17-26 | Bytes appended after a handshake response do not change that it is one. |
| PeerWire.ParseHandshakeFields | app/commands/magnet-info.js:28-33 | Parsing fails below 26 bytes. Extension support holds exactly when byte 25 is 0x10, and the peer id is the hex of bytes 48..67. |
| PeerWire.OtherBitsHideExtension | app/commands/magnet-handshake.js:17 | A byte 25 of 0x11, with the extension bit set, still reads as no extension support. |
| PeerWire.ParseRequest | app/commands/magnet-handshake.js:16-21 | Parsing a built request gives back its extension bit and peer id. |
| PeerWire.ExtensionPayload | app/commands/magnet-info.js:42-43 | `message.subarray(1).subarray(1)` is the message from byte 2, or empty. |
| MagnetHandshake.Connection.constructor | app/commands/magnet-handshake.js:9 | The buffer starts empty. |
| MagnetHandshake.Connection.DataEventHandler | app/commands/magnet-handshake.js:11-14 | Each chunk is appended to the buffer. |
| MagnetHandshake.Connection.PollResponse | app/commands/magnet-handshake.js:31-36 | A poll hands back the whole buffer and empties it, and gives nothing while the buffer is empty. |
| MagnetHandshake.ExtensionHandshakeIff | app/commands/magnet-handshake.js:55-57 | The extension handshake is sent exactly when byte 25 of the response is 0x10; a response shorter than 26 bytes throws. |
| Framing.DrainShape | app/commands/magnet-info.js:72-89 | The loop removes whole handshakes and messages from the front only. It stops with fewer than 4 bytes or an incomplete message at the front, or at a message that throws, which stays buffered. |
| Framing.DrainOfWire | app/commands/magnet-info.js:72-89 | On a stream of well-formed handshakes and messages, the loop handles each one once, in order. |
| Framing.DrainPreserves | app/commands/download-piece.js:37-51 | A property that handshakes and messages keep holds when the loop ends. |
| Framing.ChunkingIrrelevant | app/commands/magnet-info.js:71-89 | Consuming 68 bytes per handshake, framing `a` and then the rest with `b` appended ends exactly as framing `a + b` at once. |
| Framing.PrefixOfWireDoesNotThrow | app/commands/magnet-info.js:71-89 | Any first part of a stream that the reference `Run` handles without a throw is framed without a throw: a unit cut short only leaves the loop waiting. |
| Framing.WireInTwoChunks | app/commands/magnet-info.js:71-89 | A stream that `Run` handles without a throw, split into two chunks at any point, ends exactly as `Run` says, and the first chunk does not throw. |
| Framing.DiscardLosesFollowingFrame | app/commands/download-piece.js:38-41 | Emptying the buffer on a handshake loses a message delivered in the same chunk. Delivered separately, the message would be handled. |
| Framing.KeepAliveSkipped | app/commands/magnet-info.js:36 | With keep-alives ignored, a keep-alive is taken off and framing continues with the rest. |
| MagnetInfo.Client.constructor | app/commands/magnet-info.js:12-15 | Empty buffer, no handshake, no extension id, no info. |
| MagnetInfo.Client.ProcessPeerMessage | app/commands/magnet-info.js:35-67 | Succeeds exactly when `MessageEffect` does, and the new state is its result; the state is unchanged when it throws. |
| MagnetInfo.Client.DataEventHandler | app/commands/magnet-info.js:69-90 | Appends the chunk and ends in the state, buffer and thrown flag of `Drain` with the consume rule. |
| MagnetInfo.ExtensionIdRecorded | app/commands/magnet-info.js:41-48 | An id-20 dictionary with `m` sets the extension id to `m.ut_metadata` and changes nothing else. |
| MagnetInfo.MetadataFromTrailingBytes | app/commands/magnet-info.js:49-62 | A `msg_type` response decodes the metadata from exactly its last `total_size` bytes, and sets `torrent.info` to its length, piece length and split pieces. |
| MagnetInfo.MetadataWithoutTotalSize | app/commands/magnet-info.js:53 | Without `total_size`, the subtraction is NaN and the whole message is decoded. |
| MagnetInfo.OtherMessagesChangeNothing | app/commands/magnet-info.js:41-64 | Ids other than 20, and dictionaries with neither `m` nor `msg_type`, change nothing. |
| MagnetInfo.KeepAliveThrows | app/commands/magnet-info.js:36 | A keep-alive (length 0) throws at `readUint8(0)` and stays at the front of the buffer. |
| MagnetInfo.HandshakeThenExtensionIds | app/commands/magnet-info.js:69-90 | A handshake followed by an `m` message, arriving in one chunk, leaves the handshake noted, the id recorded and nothing buffered. |
| MagnetInfo.HandshakeThenExtensionIdsInTwoChunks | app/commands/magnet-info.js:69-90 | The same stream split into two chunks at any point: the first chunk does not throw, and after the second the handshake is noted, the id recorded and nothing is buffered. |
| HandshakeMixin.Host.ProcessPeerMessage | app/mixins/handshake-mixin.js:39-51 | Returns exactly when the message is non-empty and, for the extended id, decodes to a dictionary with `m`. It changes no field. |
| HandshakeMixin.Host.DataEventHandler | app/mixins/handshake-mixin.js:16-37 | Appends the chunk and ends in the state, buffer and thrown flag of `Drain` with the consume rule. |
| HandshakeMixin.StreamOutcome | app/mixins/handshake-mixin.js:20-36 | Over a stream of well-formed units that all return, the flag ends true exactly when a handshake came. |
| HandshakeMixin.HandlerOnStream | app/mixins/handshake-mixin.js:16-37 | Handling such a stream with an incomplete tail leaves exactly the tail buffered. |
| HandshakeMixin.ExtensionWithoutIdsThrows | app/mixins/handshake-mixin.js:47 | An extended message without `m` throws, and stays buffered. |
| Download.BuildPeerMessage | app/commands/download.js:89-99 | The in-place writes leave the frame: a 4-byte big-endian size of one more than the payload length, the id, and the payload. |
| Download.ConnectionState.constructor | app/commands/download.js:26-29 | No status, no data. |
| Download.ConnectionState.DataEventHandler | app/commands/download.js:31-36 | Each chunk is pushed, and the status becomes response-received. |
| Download.ConnectionState.PollResponse | app/commands/download.js:68-75 | Once a response is received, a poll hands back the chunks concatenated and clears them; before that it gives nothing. |
| Download.ConnectionState.SendPeerMessage | app/commands/download.js:89-104 | Writes the frame and sets the status to waiting. |
| Download.ParseOfPeerFrame | app/commands/download.js:106-116 | Parsing a built frame gives its id, a size of one more than the payload length, and its payload when non-empty. |
| Download.PeerFrameOfParse | app/commands/download.js:106-116 | Parsing fails exactly below 5 bytes, and a frame whose prefix matches its length is rebuilt from its parse. |
| Download.ValidateHandshakeResponseIff | app/commands/download.js:43-54 | Validation passes exactly for at least 68 bytes with byte 0 = 19 and `BitTorrent protocol` after it. |
| Download.LastBlockIsPadding | app/commands/download.js:139-143 | On the last block of the last piece, the formula returns piece length minus the last piece's size. |
| Download.LastBlockTooShort | app/commands/download.js:143 | For a 92063-byte file in three 32 KiB pieces, the blocks requested for the last piece add up to 22625 of its 26527 bytes. |
| Download.CorrectedBlocksTile | app/commands/download.js:139-143 | With the size `min(16384, piece size - offset)`, the blocks are 1..16384 bytes and add up to the piece. |
| Download.BuildRequestPayload | app/commands/download.js:159-162 | The in-place writes leave piece index, offset and block size as three big-endian UInt32s. |
| Download.RequestRoundTrip | app/commands/download.js:159-164 | A REQUEST frame parses back with size 13, and its three fields read back. |
| Download.DownloadPiece | app/commands/download.js:150-184 | The loop sends and ends exactly as `DownloadPieceSpec`: INTERESTED, which must be answered by UNCHOKE, then one request and one response per 16 KiB block, each response checked to be PIECE and copied at its offset. |
| Download.BlocksKeepPrefix | app/commands/download.js:155-182 | A later block never overwrites the piece below its own offset. |
| Download.PieceStartsWithHeader | app/commands/download.js:165-180 | A downloaded piece begins with the first response's size prefix and the PIECE id 7, not block data. |
| Download.StoreBlockOfPieceReply | app/commands/download.js:180 | Storing a PIECE reply less its 13 header bytes puts exactly the block at its offset and leaves the rest of the piece. |
| DownloadPieceCommand.State.constructor | app/commands/download-piece.js:27-31 | Empty map, status pending, empty buffer; `Valid` holds. |
| DownloadPieceCommand.State.ProcessPeerMessage | app/commands/download-piece.js:54-73 | Succeeds exactly when `MessageEffect` does, and the new state is its result; the state is unchanged when a parser throws. The `blocks` Map keeps each key once (`Valid`). |
| DownloadPieceCommand.State.DataEventHandler | app/commands/download-piece.js:33-52 | Appends the chunk and ends as `Drain` with the discard rule: a handshake empties the whole buffer and ends the handler. The `blocks` Map keeps each key once (`Valid`). |
| DownloadPieceCommand.PieceStored | app/commands/download-piece.js:57-65 | A PIECE stores its block under (pieceIndex, blockOffset), replacing an earlier one; other keys and the status are unchanged. |
| DownloadPieceCommand.OtherMessages | app/commands/download-piece.js:68-72 | UNCHOKE sets unchoke-received, and every other id changes nothing. |
| DownloadPieceCommand.MessageKeepsKeysUnique | app/commands/download-piece.js:64 | A message keeps the map's keys unique. |
| DownloadPieceCommand.KeepsKeysUnique | app/commands/download-piece.js:33-52 | However the handler ends, the map's keys stay unique. |
| DownloadPieceCommand.UnchokeAfterHandshakeLost | app/commands/download-piece.js:38-41 | An UNCHOKE that arrives in the same chunk as the handshake is lost; arriving in a later chunk, it is recorded. |
| DownloadPieceCommand.DownloadPiece | app/commands/download-piece.js:171-195 | The writes are exactly `Batches` of the block requests in offset order, with threshold `MAXIMUM_OUTGOING_BUFFER_SIZE`. So they concatenate to all the requests, every write but the last reaches the threshold, and `totalBlockCount` is the number of requests. |
| DownloadPieceCommand.BatchesConcat | app/commands/download-piece.js:184-193 | The writes carry every request once, in order, and nothing else. |
| DownloadPieceCommand.BatchesFull | app/commands/download-piece.js:189 | A write below the threshold is made only for the last request. |
| DownloadPieceCommand.BatchesBounded | app/commands/download-piece.js:184-193 | A write goes past the threshold by less than one request. With requests of at most `longest` bytes, every write is shorter than the threshold plus `longest`. |
| Blocks.KeyTextReadsBack | app/commands/download-piece.js:141-142 | The key `${pieceIndex}-${blockOffset}` splits at `-` back into the two numbers. |
| Blocks.KeyTextInjective | app/commands/download-piece.js:64 | Different (pieceIndex, blockOffset) pairs get different keys. |
| Blocks.CompareIff | app/commands/download-piece.js:140-144 | The comparator orders keys by piece index, then by offset, and is zero only on equal keys. |
| Blocks.SetSemantics | app/commands/download-piece.js:64 | `set` makes the key hold the new block and leaves every other key, and keeps keys unique. The size grows by one exactly for a new key. |
| Blocks.SortEntriesSorted | app/commands/download-piece.js:139-145 | The sort yields the map's entries, as a permutation, in strictly ascending key order. |
| Blocks.ConvertMapToBufferOrdered | app/commands/download-piece.js:138-148 | The buffer is the blocks concatenated in ascending key order, whatever the insertion order. |
| Blocks.ConvertMapToBufferSize | app/commands/download-piece.js:147 | The buffer's length is the sum of the block lengths. |
| Blocks.ValidatePieceHashIff | app/commands/download-piece.js:150-162 | Validation passes exactly when the piece's digest equals the expected hash; otherwise it throws. |
| Blocks.RequestCount | app/commands/download-piece.js:178-187 | With 16 KiB blocks, a piece of L bytes takes `ceil(L / 16384)` requests. |
| MagnetDownloadCommand.State.constructor | app/commands/magnet-download.js:31-40 | Empty map, status pending, empty buffers, no extension id, no info. |
| MagnetDownloadCommand.State.ProcessPeerMessage | app/commands/magnet-download.js:42-89 | Succeeds exactly when `MessageEffect` does, and the new state is its result. It throws on an empty message or a failing parser, and the state is then unchanged. |
| MagnetDownloadCommand.State.DataEventHandler | app/commands/magnet-download.js:91-112 | Appends the chunk and ends as `Drain` with the consume rule; the outgoing buffer is untouched. |
| MagnetDownloadCommand.State.DownloadPiece | app/commands/magnet-download.js:131-163 | With an empty incoming buffer, the writes are exactly `Batches` of the block requests in offset order, with threshold `MAXIMUM_OUTGOING_BUFFER_SIZE`. So they concatenate to all the requests, every write but the final flush reaches the threshold, and nothing stays queued. Otherwise nothing is written and every request stays queued. |
| MagnetDownloadCommand.BatchesConcat | app/commands/magnet-download.js:151-163 | The writes carry every request once, in order, and nothing else. |
| MagnetDownloadCommand.BatchesFull | app/commands/magnet-download.js:154-163 | Every write but the final flush reaches the threshold. |
| MagnetDownloadCommand.BatchesBounded | app/commands/magnet-download.js:151-163 | A write goes past the threshold by less than one request. With requests of at most `longest` bytes, every write is shorter than the threshold plus `longest`. |
| MagnetDownloadCommand.PieceStored | app/commands/magnet-download.js:45-54 | A PIECE stores its block under (pieceIndex, blockOffset); other keys and fields are unchanged. |
| MagnetDownloadCommand.UnchokeRecorded | app/commands/magnet-download.js:57-59 | UNCHOKE sets unchoke-received and nothing else. |
| MagnetDownloadCommand.ExtensionIdRecorded | app/commands/magnet-download.js:67-69 | An id-20 dictionary with `m` records `m.ut_metadata`, which the metadata request then uses. |
| MagnetDownloadCommand.MetadataFromTrailingBytes | app/commands/magnet-download.js:70-85 | A `msg_type` response decodes the last `total_size` bytes and sets `torrent.info` to length, piece length, split hashes and raw pieces. |
| MagnetDownloadCommand.OtherMessagesChangeNothing | app/commands/magnet-download.js:62-88 | Other ids, and dictionaries with neither key, change nothing. |
| MagnetDownloadCommand.MessageKeepsKeysUnique | app/commands/magnet-download.js:53 | A message keeps the map's keys unique. |
| MagnetDownloadCommand.KeepsKeysUnique | app/commands/magnet-download.js:91-112 | However the handler ends, the map's keys stay unique. |
| MagnetDownloadCommand.KeepAliveThrows | app/commands/magnet-download.js:43 | A keep-alive throws at `readUint8(0)` and stays at the front of the buffer. |

## Left out

- Sockets, HTTP and the tracker requests (app/utils/network.js, `connect`, `disconnect`, `fetchPeers`, `fetchMagnetPeers`) are not modelled: they are I/O. A socket write is an element of a returned sequence of writes.
- `connect` in app/utils/network.js takes two arguments. The `dataEventHandler` that app/commands/download.js:197, app/commands/download-piece.js:204, app/commands/magnet-download.js:274, app/commands/magnet-info.js:148 and app/commands/magnet-handshake.js:49 pass as a third is therefore never attached, and as written those commands never see a reply. The model takes the replies and chunks as an unconstrained input, so it covers this case (none arrive) as well as the intended one. The throw on a keep-alive (see "## Findings") and the magnet-handshake reply are reached only with a `connect` that attaches the handler.
- Timers and waits (`waitFor*`, `pause`, `setInterval`/`setTimeout`, the timeouts of `fetchResponse`) are not modelled. A poll that finds its condition is a method call, and a timeout is running out of replies.
- `handleCommand` of every command, app/main.js, file reading and writing, and console logging are not modelled: they only sequence the modelled operations.
- `parseMagnetLink` and app/commands/magnet-parse.js are not modelled: they wrap `URL`/`URLSearchParams`.
- `createExtensionHandshakeRequest`, `createHandshakeRequest`, `parseHandshake` of `utils/handshake` and `splitPieces` of app/utils/torrent.js live in module versions this model does not contain. Only whether and when they are called is modelled; the framing loops log the parsed handshake and nothing else.
- SHA-1 and Node's digest encodings are left out: SHA-1 is an uninterpreted function, and the 'hex' digest is the lowercase hex of its bytes.
- `toString()` of the protocol bytes in `isHandshakeResponse` is compared as bytes. UTF-8 decoding gives the ASCII text `BitTorrent protocol` only from exactly those bytes, so nothing is lost.
- `Number()` is modelled only for optionally signed decimal integers. Fractions, exponents, hex and `Infinity` are `NotInteger`.
- Floating point is not modelled. `(n / 20) * 20` is taken to be exactly `n`. That is what doubles give for pieces lengths of any realistic size, but the model does not prove it.
- Common.ScaledLength: for a non-zero `hashLength` other than `HASH_LENGTH`, the model writes the decimal of the pieces length. The source's doubles may write another text: 29 bytes with `hashLength` 7 give `29.000000000000004`, and 1 byte with 49 gives `0.9999999999999999`. The only caller, app/commands/info.js:19, passes `HASH_LENGTH`. So `Common.DeclaredLengthIsPiecesLength` and `Common.SameAsUtilsTorrent` are stated for `HASH_LENGTH` only.
- UtilsTorrent.PreImageIsBencodedDictionary: text is modelled as one byte per character (`Bytes.Latin1`), and a string's `.length` as its number of characters. `Buffer.from` writes UTF-8 and `.length` counts UTF-16 units, so the two agree only on ASCII text. For a non-ASCII name such as `é`, the source writes `4:name1:` followed by the two bytes C3 A9. That is not a valid bencoding; the model writes the single byte E9. The same holds of the pre-images of `Common` and `CommandsCommon` and of `Encoder.Encode` on non-ASCII strings; the lemmas are about the one-byte-per-character model.
- JavaScript's enumeration of integer-like object keys first is left out: objects are ordered entry sequences.
- Bencode.Property: `value.length` of a decoded byte string or list is its length in JavaScript, where the model gives `None`. The reads of `piece.length` (app/commands/magnet-info.js:58, app/commands/magnet-download.js:80) differ only when the metadata decodes to something other than a dictionary.
- Buffer-valued `total_size` or `m` entries are not modelled. A `total_size` that is not an integer counts as NaN.
- Download.BuildPeerMessage: payloads of `2^32 - 1` bytes or more, for which `writeUInt32BE` throws, are excluded by its precondition.
- Download.BuildRequestPayload: values outside UInt32, for which `writeUInt32BE` throws, are excluded by its precondition. `Download.DownloadPiece` checks them and ends with `OutOfRange`, as the source throws.
- InfoCommand.SplitPieces: a `hashLength` of 0 or less with non-empty input never terminates in the source, and is excluded by its precondition.
- DownloadPieceCommand.DownloadPiece: the `pause` between writes, and the wait for all blocks after the loop, are not modelled.
- MagnetDownloadCommand.State.DownloadPiece: `calculatePieceLength`, `createBlockRequest` and `BLOCK_REQUEST_SIZE` are parameters. The threshold `MAXIMUM_OUTGOING_BUFFER_SIZE` is `5 * blockRequestSize` bytes for the parameter `blockRequestSize`, and `DownloadPieceCommand.DownloadPiece` uses `2 * blockRequestSize`.
- `waitForMetadataResponse` tests `state.torrent.info`, which starts as `{}` and is always truthy. It is part of the waits that are left out.
- Sorting in `convertMapToBuffer` is modelled as insertion sort over the map's entries. Only the result matters, and the comparator is a strict total order on distinct keys.

## Findings

| source | as written | input that shows it | evidently intended | confidence | as-written member | corrected member |
|---|---|---|---|---|---|---|
| app/commands/download.js:143 | The last block of the last piece is requested with size `pieceLength * numberOfPieces - totalFileLength`, the padding of the last piece. | A 92063-byte file in pieces of 32768 bytes: the last piece has 26527 bytes, its second block should have 10143, but 6241 are requested. | The rest of the piece, `min(16384, pieceSize - blockOffset)`. | not executed | Download.LastBlockTooShort | Download.CorrectedBlocksTile |
| app/commands/download.js:180 | The whole response buffer, with its 13-byte message header, is copied into the piece at the block's offset. | Any successful download of a piece of at least 5 bytes: piece bytes 0..4 are the first response's size prefix and the PIECE id. | Copy only the block, `response.subarray(13)`. | not executed | Download.PieceStartsWithHeader | Download.StoreBlockOfPieceReply |
| app/commands/download-piece.js:40 | A handshake empties the whole incoming buffer and ends the handler. | A handshake and an UNCHOKE frame in one chunk: the UNCHOKE is lost, and the status stays at handshake-received. | Remove the 68 handshake bytes and go on framing, as app/commands/magnet-info.js:78 does. | not executed | DownloadPieceCommand.UnchokeAfterHandshakeLost | Framing.ChunkingIrrelevant |
| app/commands/magnet-info.js:36 | `readUint8(0)` on the empty keep-alive message throws inside the framing loop. | The bytes `00 00 00 00`: the handler throws out of the socket's 'data' listener, since the framing loop of app/commands/magnet-info.js:69-90 has no `try`. Uncaught, this ends the Node process by default. | Skip keep-alives (BEP 3: a length prefix of 0 is a keep-alive). | not executed | MagnetInfo.KeepAliveThrows | Framing.KeepAliveSkipped |
| app/commands/magnet-download.js:43 | The same `readUint8(0)` on a keep-alive throws. | The bytes `00 00 00 00`. | Skip keep-alives. | not executed | MagnetDownloadCommand.KeepAliveThrows | Framing.KeepAliveSkipped |
