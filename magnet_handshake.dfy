/**
  app/commands/magnet-handshake.js: bytes from the peer accumulate in the
  module's `incomingBuffer` until `fetchResponse` takes them all, and the
  extension handshake follows only when the reply announces extension
  support. The interval timer of `fetchResponse` becomes one poll; the
  socket and the 30-second timeout are not modelled.
 */
module MagnetHandshake {
  import opened Bytes
  import PeerWire

  class Connection {
    var incomingBuffer: seq<byte>

    constructor()
      ensures incomingBuffer == []
    {
      incomingBuffer := [];
    }

    /** `dataEventHandler(data)`: the chunk is appended. */
    method DataEventHandler(data: seq<byte>)
      modifies this
      ensures incomingBuffer == old(incomingBuffer) + data
    {
      incomingBuffer := incomingBuffer + data;
    }

    /**
      One turn of `fetchResponse`'s interval: with bytes buffered it
      resolves with all of them and empties the buffer; with none it keeps
      waiting.
     */
    method PollResponse() returns (response: Option<seq<byte>>)
      modifies this
      ensures old(incomingBuffer) != [] ==> response == Some(old(incomingBuffer)) && incomingBuffer == []
      ensures old(incomingBuffer) == [] ==> response == None && incomingBuffer == []
    {
      if |incomingBuffer| > 0 {
        response := Some(incomingBuffer);
        incomingBuffer := [];
      } else {
        response := None;
      }
    }
  }

  /**
    What `handleCommand` does with the reply: `Ok(true)` when it sends the
    extension handshake, `Ok(false)` when it reports no extension support,
    and the `RangeError` of `parseHandshake` for a reply of at most 25 bytes.
   */
  function SendsExtensionHandshake(response: seq<byte>): Result<bool, PeerWire.RangeError>
  {
    match PeerWire.ParseHandshake(response)
    case Err(e) => Err(e)
    case Ok(h) => Ok(h.supportsExtension)
  }

  /** The extension handshake is sent exactly when reserved byte 25 of the reply is 0x10. */
  lemma ExtensionHandshakeIff(response: seq<byte>)
    ensures SendsExtensionHandshake(response) == Ok(true) <==> |response| >= 26 && response[25] == 0x10
    ensures SendsExtensionHandshake(response).Err? <==> |response| < 26
  {
    PeerWire.ParseHandshakeFields(response);
  }
}
