/**
  app/mixins/handshake-mixin.js: the framing loop shared by the objects
  the mixin is copied into, over their `incomingBuffer` and
  `handshakeReceived` fields. Its `processPeerMessage` only reads the
  peer's `m.ut_metadata` out of an extension message and logs it; it
  changes no field, but it throws on the messages it cannot read.

  `decodeBencode` from the utils decoder and `MessageId.EXTENDED` come
  from module versions this model does not contain; they are the host's
  `decode` (returning `None` where it throws) and `extended`.
 */
module HandshakeMixin {
  import opened Bytes
  import opened Bencode
  import PeerWire
  import Framing

  type Decoder = seq<byte> -> Option<Value>

  /**
    Whether `processPeerMessage(message)` returns normally: reading the id
    of an empty message throws, and for an extension message so do a
    decode that throws and a decoded value without 'm' (`undefined` has
    no `ut_metadata`).
   */
  predicate Returns(extended: int, decode: Decoder, message: seq<byte>)
  {
    |message| > 0 &&
    (message[0] as int != extended ||
     match decode(PeerWire.ExtensionPayload(message))
     case None => false
     case Some(decoded) => HasProperty(decoded, "m"))
  }

  /** The handler's state is `handshakeReceived`; a handshake sets it. */
  function Noted(received: bool): bool
  {
    true
  }

  function Processor(extended: int, decode: Decoder): (bool, seq<byte>) -> Option<bool>
  {
    (received: bool, message: seq<byte>) => if Returns(extended, decode, message) then Some(received) else None
  }

  class Host {
    const extended: int
    const decode: Decoder
    var incomingBuffer: seq<byte>
    var handshakeReceived: bool

    constructor(extended: int, decode: Decoder)
      ensures this.extended == extended && this.decode == decode
      ensures incomingBuffer == [] && !handshakeReceived
    {
      this.extended := extended;
      this.decode := decode;
      incomingBuffer := [];
      handshakeReceived := false;
    }

    /** `processPeerMessage(message)`: changes nothing; `false` when it throws. */
    method ProcessPeerMessage(message: seq<byte>) returns (ok: bool)
      ensures ok <==> Returns(extended, decode, message)
    {
      if |message| == 0 {
        return false;
      }
      var messageId := message[0];
      if messageId as int == extended {
        var payload := SubarrayFrom(message, 1);
        var dictionary := SubarrayFrom(payload, 1);
        var decoded := decode(dictionary);
        if decoded.None? || !HasProperty(decoded.value, "m") {
          return false;
        }
        var peerMetadataExtensionId := Property(Property(decoded.value, "m").value, "ut_metadata");
      }
      return true;
    }

    /**
      `dataEventHandler(chunk)`: the chunk is appended and the buffer
      framed, each handshake taking 68 bytes; the handler ends as `Drain`
      says, `threw` reporting a message whose processing threw.
     */
    method DataEventHandler(chunk: seq<byte>) returns (threw: bool)
      modifies this
      ensures Framing.Drain(Framing.Consume, Noted, Processor(extended, decode), old(handshakeReceived), old(incomingBuffer) + chunk)
              == Framing.Drained(handshakeReceived, incomingBuffer, threw)
    {
      ghost var p := Processor(extended, decode);
      incomingBuffer := incomingBuffer + chunk;
      ghost var outcome := Framing.Drain(Framing.Consume, Noted, p, handshakeReceived, incomingBuffer);
      while |incomingBuffer| >= 4
        invariant outcome == Framing.Drain(Framing.Consume, Noted, p, handshakeReceived, incomingBuffer)
        decreases |incomingBuffer|
      {
        ghost var before := handshakeReceived;
        ghost var buffer := incomingBuffer;
        if PeerWire.IsHandshakeResponse(incomingBuffer) {
          Framing.DrainHandshakeStep(Noted, p, before, buffer);
          var handshake := PeerWire.ParseHandshake(incomingBuffer);
          incomingBuffer := Subarray(incomingBuffer, PeerWire.HandshakeLength, |incomingBuffer|);
          handshakeReceived := true;
          assert incomingBuffer == buffer[PeerWire.HandshakeLength..];
          continue;
        }
        var messageLength := Be32(incomingBuffer);
        if |incomingBuffer| < messageLength + 4 {
          break;
        }
        var message := Subarray(incomingBuffer, 4, 4 + messageLength);
        var ok := ProcessPeerMessage(message);
        if !ok {
          return true;
        }
        Framing.DrainFrameStep(Framing.Consume, Noted, p, before, buffer);
        incomingBuffer := Subarray(incomingBuffer, 4 + messageLength, |incomingBuffer|);
        assert incomingBuffer == buffer[4 + messageLength..];
      }
      return false;
    }
  }

  /** Whether a stream of units contains a handshake. */
  predicate HasHandshake(us: seq<Framing.Unit>)
  {
    exists i :: 0 <= i < |us| && us[i].Handshake?
  }

  /** No message of the stream makes `processPeerMessage` throw. */
  predicate AllReturn(extended: int, decode: Decoder, us: seq<Framing.Unit>)
  {
    forall i :: 0 <= i < |us| && us[i].Frame? ==> Returns(extended, decode, us[i].message)
  }

  /**
    Handled in order and once each, a stream whose messages all return
    sets `handshakeReceived` exactly when it contains a handshake (or it
    was already set), and leaves only the incomplete tail buffered.
   */
  lemma {:induction false} StreamOutcome(extended: int, decode: Decoder, received: bool,
                                         us: seq<Framing.Unit>, tail: seq<byte>)
    requires Framing.AllWellFormed(us) && AllReturn(extended, decode, us)
    ensures Framing.Run(Noted, Processor(extended, decode), received, us, tail)
      == Framing.Drained(received || HasHandshake(us), tail, false)
    decreases |us|
  {
    if us != [] {
      var p := Processor(extended, decode);
      assert Framing.AllWellFormed(us[1..]) && AllReturn(extended, decode, us[1..]) by {
        forall i | 0 <= i < |us[1..]|
          ensures Framing.WellFormed(us[1..][i])
          ensures us[1..][i].Frame? ==> Returns(extended, decode, us[1..][i].message)
        {
          assert us[1..][i] == us[i + 1];
        }
      }
      var next := if us[0].Handshake? then true else received;
      StreamOutcome(extended, decode, next, us[1..], tail);
      assert HasHandshake(us) == (us[0].Handshake? || HasHandshake(us[1..])) by {
        if HasHandshake(us[1..]) {
          var i :| 0 <= i < |us[1..]| && us[1..][i].Handshake?;
          assert us[i + 1] == us[1..][i];
        }
        if HasHandshake(us) && !us[0].Handshake? {
          var i :| 0 <= i < |us| && us[i].Handshake?;
          assert us[1..][i - 1] == us[i];
        }
      }
      if us[0].Frame? {
        assert p(received, us[0].message) == Some(received);
      }
    }
  }

  /**
    The handler on the wire form of such a stream, then a tail with
    nothing complete at the front: every message passed on, the handshake
    noted exactly when one came, the tail left buffered.
   */
  lemma HandlerOnStream(extended: int, decode: Decoder, received: bool,
                        us: seq<Framing.Unit>, tail: seq<byte>)
    requires Framing.AllWellFormed(us) && AllReturn(extended, decode, us) && Framing.Waiting(tail)
    ensures Framing.Drain(Framing.Consume, Noted, Processor(extended, decode), received, Framing.Wire(us) + tail)
      == Framing.Drained(received || HasHandshake(us), tail, false)
  {
    Framing.DrainOfWire(Noted, Processor(extended, decode), received, us, tail);
    StreamOutcome(extended, decode, received, us, tail);
  }

  /** An extension message whose dictionary lacks 'm' stops the handler with the message still buffered. */
  lemma ExtensionWithoutIdsThrows(extended: int, decode: Decoder, received: bool, message: seq<byte>, rest: seq<byte>)
    requires Framing.WellFormed(Framing.Frame(message))
    requires |message| >= 2 && message[0] as int == extended
    requires decode(message[2..]).Some? && !HasProperty(decode(message[2..]).value, "m")
    ensures var buf := Framing.UnitBytes(Framing.Frame(message)) + rest;
      Framing.Drain(Framing.Consume, Noted, Processor(extended, decode), received, buf)
      == Framing.Drained(received, buf, true)
  {
    Framing.FrameFront(message, rest);
  }
}
