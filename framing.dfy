/**
  The framing loop the peer-protocol handlers run over their incoming
  buffer (section "peer messages" of BEP 3): while at least 4 bytes are
  buffered, a handshake at the front is taken off, otherwise a message of
  big-endian length L is handed on once all of its 4 + L bytes are there.

  `Drain` is the loop as a function of the handler's state and buffer. The
  handlers differ in what a handshake does (`HandshakeRule`, `onHandshake`)
  and in how a message changes their state (`process`, `None` when it
  throws, which ends the handler with the message still buffered).
 */
module Framing {
  import opened Bytes
  import PeerWire

  /** What a framing loop does with a handshake at the front of its buffer. */
  datatype HandshakeRule =
    | Consume  // drop its 68 bytes and go on framing the rest
    | Discard  // empty the whole buffer and leave the handler

  /** Where the loop stopped: the handler's state, what is left buffered, and whether a message threw. */
  datatype Drained<S> = Drained(state: S, buffer: seq<byte>, threw: bool)

  /** Nothing complete at the front: fewer than 4 bytes, or a message whose 4 + L bytes have not all arrived. */
  predicate Waiting(buf: seq<byte>)
  {
    |buf| < 4 || (!PeerWire.IsHandshakeResponse(buf) && |buf| < Be32(buf) + 4)
  }

  /** The loop run to its end; `DrainShape` states where it stops. */
  function Drain<S>(rule: HandshakeRule, onHandshake: S -> S, process: (S, seq<byte>) -> Option<S>,
                    s: S, buf: seq<byte>): Drained<S>
    decreases |buf|
  {
    if |buf| < 4 then Drained(s, buf, false)
    else if PeerWire.IsHandshakeResponse(buf) then
      if rule == Discard then Drained(onHandshake(s), [], false)
      else Drain(rule, onHandshake, process, onHandshake(s), buf[PeerWire.HandshakeLength..])
    else
      var n := Be32(buf);
      if |buf| < n + 4 then Drained(s, buf, false)
      else match process(s, buf[4..4 + n])
        case None => Drained(s, buf, true)
        case Some(t) => Drain(rule, onHandshake, process, t, buf[4 + n..])
  }

  /**
    The loop only ever removes whole handshakes and whole messages from
    the front (what is left is a suffix of the buffer); it stops with
    nothing complete at the front, or at the first message that throws,
    which is then still at the front.
   */
  lemma DrainShape<S>(rule: HandshakeRule, onHandshake: S -> S, process: (S, seq<byte>) -> Option<S>,
                      s: S, buf: seq<byte>)
    ensures var r := Drain(rule, onHandshake, process, s, buf);
      && |r.buffer| <= |buf| && r.buffer == buf[|buf| - |r.buffer|..]
      && (!r.threw ==> Waiting(r.buffer))
      && (r.threw ==> !Waiting(r.buffer) && !PeerWire.IsHandshakeResponse(r.buffer)
                      && process(r.state, r.buffer[4..4 + Be32(r.buffer)]).None?)
  {
    DrainSuffix(rule, onHandshake, process, s, buf);
    DrainStopsWaiting(rule, onHandshake, process, s, buf);
    DrainStopsAtThrow(rule, onHandshake, process, s, buf);
  }

  /** What is left is a suffix of the buffer. */
  lemma {:induction false} DrainSuffix<S>(rule: HandshakeRule, onHandshake: S -> S, process: (S, seq<byte>) -> Option<S>,
                                          s: S, buf: seq<byte>)
    ensures var r := Drain(rule, onHandshake, process, s, buf);
      |r.buffer| <= |buf| && r.buffer == buf[|buf| - |r.buffer|..]
    decreases |buf|
  {
    var r := Drain(rule, onHandshake, process, s, buf);
    if |buf| < 4 {
      assert r.buffer == buf == buf[0..];
    } else if PeerWire.IsHandshakeResponse(buf) {
      var rest := buf[PeerWire.HandshakeLength..];
      if rule == Consume {
        assert r == Drain(rule, onHandshake, process, onHandshake(s), rest);
        DrainSuffix(rule, onHandshake, process, onHandshake(s), rest);
        SuffixOfSuffix(buf, PeerWire.HandshakeLength, |r.buffer|);
      } else {
        assert r.buffer == [] == buf[|buf|..];
      }
    } else {
      var n := Be32(buf);
      if |buf| < n + 4 || process(s, buf[4..4 + n]).None? {
        assert r.buffer == buf == buf[0..];
      } else {
        var t := process(s, buf[4..4 + n]).value;
        assert r == Drain(rule, onHandshake, process, t, buf[4 + n..]);
        DrainSuffix(rule, onHandshake, process, t, buf[4 + n..]);
        SuffixOfSuffix(buf, 4 + n, |r.buffer|);
      }
    }
  }

  /** Unless a message threw, the loop stops with nothing complete at the front. */
  lemma {:induction false} DrainStopsWaiting<S>(rule: HandshakeRule, onHandshake: S -> S, process: (S, seq<byte>) -> Option<S>,
                                                s: S, buf: seq<byte>)
    ensures var r := Drain(rule, onHandshake, process, s, buf);
      !r.threw ==> Waiting(r.buffer)
    decreases |buf|
  {
    if |buf| >= 4 {
      if PeerWire.IsHandshakeResponse(buf) {
        if rule == Consume {
          DrainStopsWaiting(rule, onHandshake, process, onHandshake(s), buf[PeerWire.HandshakeLength..]);
        }
      } else {
        var n := Be32(buf);
        if |buf| >= n + 4 && process(s, buf[4..4 + n]).Some? {
          DrainStopsWaiting(rule, onHandshake, process, process(s, buf[4..4 + n]).value, buf[4 + n..]);
        }
      }
    }
  }

  /** A message that throws stops the loop and stays at the front of the buffer. */
  lemma {:induction false} DrainStopsAtThrow<S>(rule: HandshakeRule, onHandshake: S -> S, process: (S, seq<byte>) -> Option<S>,
                                                s: S, buf: seq<byte>)
    ensures var r := Drain(rule, onHandshake, process, s, buf);
      r.threw ==> !Waiting(r.buffer) && !PeerWire.IsHandshakeResponse(r.buffer)
                   && process(r.state, r.buffer[4..4 + Be32(r.buffer)]).None?
    decreases |buf|
  {
    var r := Drain(rule, onHandshake, process, s, buf);
    if |buf| < 4 {
      assert !r.threw;
    } else if PeerWire.IsHandshakeResponse(buf) {
      if rule == Consume {
        var rest := buf[PeerWire.HandshakeLength..];
        assert r == Drain(rule, onHandshake, process, onHandshake(s), rest);
        DrainStopsAtThrow(rule, onHandshake, process, onHandshake(s), rest);
      } else {
        assert !r.threw;
      }
    } else {
      var n := Be32(buf);
      if |buf| < n + 4 {
        assert !r.threw;
      } else if process(s, buf[4..4 + n]).None? {
        assert r == Drained(s, buf, true);
      } else {
        var t := process(s, buf[4..4 + n]).value;
        assert r == Drain(rule, onHandshake, process, t, buf[4 + n..]);
        DrainStopsAtThrow(rule, onHandshake, process, t, buf[4 + n..]);
      }
    }
  }

  /** A suffix of a suffix is a suffix. */
  lemma SuffixOfSuffix(buf: seq<byte>, k: nat, m: nat)
    requires k <= |buf| && m <= |buf| - k
    ensures buf[k..][|buf| - k - m..] == buf[|buf| - m..]
  {
  }

  // ---------------------------------------------------------------------
  // The stream as the peer writes it: handshakes and length-prefixed messages.
  // ---------------------------------------------------------------------

  datatype Unit = Handshake(bytes: seq<byte>) | Frame(message: seq<byte>)

  /**
    A unit the loop can tell apart: a 68-byte handshake, or a message
    shorter than 19·2^24 bytes, whose length prefix then cannot start with
    the handshake's byte 19.
   */
  predicate WellFormed(u: Unit)
  {
    match u
    case Handshake(h) => |h| == PeerWire.HandshakeLength && PeerWire.IsHandshakeResponse(h)
    case Frame(m) => |m| < 19 * 0x100_0000
  }

  predicate AllWellFormed(us: seq<Unit>) { forall i :: 0 <= i < |us| ==> WellFormed(us[i]) }

  /** The bytes of a unit on the wire; a message is preceded by its length as 4 big-endian bytes. */
  function UnitBytes(u: Unit): seq<byte>
    requires WellFormed(u)
  {
    match u
    case Handshake(h) => h
    case Frame(m) => U32Bytes(|m|) + m
  }

  function Wire(us: seq<Unit>): seq<byte>
    requires AllWellFormed(us)
  {
    if us == [] then [] else UnitBytes(us[0]) + Wire(us[1..])
  }

  /**
    The reference behaviour: every unit handled once, in order, each
    message passed on exactly as it was sent, until one throws.
   */
  function Run<S>(onHandshake: S -> S, process: (S, seq<byte>) -> Option<S>,
                  s: S, us: seq<Unit>, tail: seq<byte>): Drained<S>
    requires AllWellFormed(us)
  {
    if us == [] then Drained(s, tail, false)
    else match us[0]
      case Handshake(_) => Run(onHandshake, process, onHandshake(s), us[1..], tail)
      case Frame(m) =>
        match process(s, m)
        case None => Drained(s, Wire(us) + tail, true)
        case Some(t) => Run(onHandshake, process, t, us[1..], tail)
  }

  /** A message's wire form is not read as a handshake, and its length prefix reads back as its length. */
  lemma FrameFront(m: seq<byte>, rest: seq<byte>)
    requires |m| < 19 * 0x100_0000
    ensures var buf := U32Bytes(|m|) + m + rest;
      && |buf| >= 4 && !PeerWire.IsHandshakeResponse(buf) && Be32(buf) == |m|
      && buf[4..4 + |m|] == m && buf[4 + |m|..] == rest
  {
    var buf := U32Bytes(|m|) + m + rest;
    U32RoundTrip(|m|);
    assert buf[..4] == U32Bytes(|m|);
    assert Be32(buf) == Be32(buf[..4]);
    PeerWire.HandshakeResponseIff(buf);
  }

  /**
    The loop that drops exactly 68 bytes per handshake dispatches a stream
    of units exactly as `Run` does: each once, in order, with the
    incomplete tail left buffered.
   */
  lemma {:induction false} DrainOfWire<S>(onHandshake: S -> S, process: (S, seq<byte>) -> Option<S>,
                                          s: S, us: seq<Unit>, tail: seq<byte>)
    requires AllWellFormed(us) && Waiting(tail)
    ensures Drain(Consume, onHandshake, process, s, Wire(us) + tail) == Run(onHandshake, process, s, us, tail)
    decreases |us|
  {
    if us == [] {
      assert Wire(us) + tail == tail;
    } else {
      var rest := Wire(us[1..]) + tail;
      assert Wire(us) + tail == UnitBytes(us[0]) + rest;
      match us[0]
      case Handshake(h) =>
        PeerWire.HandshakeResponsePrefix(h, rest);
        assert (h + rest)[PeerWire.HandshakeLength..] == rest;
        DrainOfWire(onHandshake, process, onHandshake(s), us[1..], tail);
      case Frame(m) =>
        assert U32Bytes(|m|) + m + rest == UnitBytes(us[0]) + rest;
        FrameFront(m, rest);
        if process(s, m).Some? {
          DrainOfWire(onHandshake, process, process(s, m).value, us[1..], tail);
        }
    }
  }

  /** One turn of the loop on a handshake at the front: 68 bytes go and the handshake is noted. */
  lemma DrainHandshakeStep<S>(onHandshake: S -> S, process: (S, seq<byte>) -> Option<S>, s: S, buf: seq<byte>)
    requires PeerWire.IsHandshakeResponse(buf)
    ensures Drain(Consume, onHandshake, process, s, buf)
      == Drain(Consume, onHandshake, process, onHandshake(s), buf[PeerWire.HandshakeLength..])
  {
  }

  /** One turn of the loop on a complete message at the front that does not throw. */
  lemma DrainFrameStep<S>(rule: HandshakeRule, onHandshake: S -> S, process: (S, seq<byte>) -> Option<S>,
                          s: S, buf: seq<byte>)
    requires |buf| >= 4 && !PeerWire.IsHandshakeResponse(buf) && |buf| >= Be32(buf) + 4
    requires process(s, buf[4..4 + Be32(buf)]).Some?
    ensures Drain(rule, onHandshake, process, s, buf)
      == Drain(rule, onHandshake, process, process(s, buf[4..4 + Be32(buf)]).value, buf[4 + Be32(buf)..])
  {
  }

  /** A property of the handler's state that handshakes and messages keep holds when the loop ends. */
  lemma {:induction false} DrainPreserves<S>(rule: HandshakeRule, onHandshake: S -> S, process: (S, seq<byte>) -> Option<S>,
                                             inv: S -> bool, s: S, buf: seq<byte>)
    requires inv(s)
    requires forall t :: inv(t) ==> inv(onHandshake(t))
    requires forall t, m :: inv(t) && process(t, m).Some? ==> inv(process(t, m).value)
    ensures inv(Drain(rule, onHandshake, process, s, buf).state)
    decreases |buf|
  {
    if |buf| >= 4 {
      if PeerWire.IsHandshakeResponse(buf) {
        if rule == Consume {
          DrainPreserves(rule, onHandshake, process, inv, onHandshake(s), buf[PeerWire.HandshakeLength..]);
        }
      } else {
        var n := Be32(buf);
        if |buf| >= n + 4 && process(s, buf[4..4 + n]).Some? {
          DrainPreserves(rule, onHandshake, process, inv, process(s, buf[4..4 + n]).value, buf[4 + n..]);
        }
      }
    }
  }

  /** Bytes appended after a complete message change neither the message nor how it is recognised. */
  lemma CompleteFrameAppend(a: seq<byte>, b: seq<byte>)
    requires |a| >= 4 && !PeerWire.IsHandshakeResponse(a) && |a| >= Be32(a) + 4
    ensures var n := Be32(a);
      && |a + b| >= 4 && !PeerWire.IsHandshakeResponse(a + b) && Be32(a + b) == n
      && (a + b)[4..4 + n] == a[4..4 + n] && (a + b)[4 + n..] == a[4 + n..] + b
  {
    var n := Be32(a);
    assert (a + b)[..4] == a[..4];
    PeerWire.HandshakeResponseIff(a);
    PeerWire.HandshakeResponseIff(a + b);
    if |a| < PeerWire.HandshakeLength && a[0] == 19 {
      PeerWire.NineteenPrefixIsLong(a);
    }
  }

  /**
    With handshakes consumed 68 bytes at a time, how the bytes are split
    into chunks does not matter: handling `a` and then the rest of the
    buffer with `b` appended ends exactly as handling `a + b` at once.
   */
  lemma {:induction false} ChunkingIrrelevant<S>(onHandshake: S -> S, process: (S, seq<byte>) -> Option<S>,
                                                 s: S, a: seq<byte>, b: seq<byte>)
    requires !Drain(Consume, onHandshake, process, s, a).threw
    ensures var r := Drain(Consume, onHandshake, process, s, a);
      Drain(Consume, onHandshake, process, s, a + b) == Drain(Consume, onHandshake, process, r.state, r.buffer + b)
    decreases |a|
  {
    if |a| < 4 {
    } else if PeerWire.IsHandshakeResponse(a) {
      var rest := a[PeerWire.HandshakeLength..];
      PeerWire.HandshakeResponsePrefix(a, b);
      assert (a + b)[PeerWire.HandshakeLength..] == rest + b;
      DrainHandshakeStep(onHandshake, process, s, a);
      DrainHandshakeStep(onHandshake, process, s, a + b);
      ChunkingIrrelevant(onHandshake, process, onHandshake(s), rest, b);
    } else if |a| >= Be32(a) + 4 {
      var n := Be32(a);
      var t := process(s, a[4..4 + n]).value;
      CompleteFrameAppend(a, b);
      DrainFrameStep(Consume, onHandshake, process, s, a);
      DrainFrameStep(Consume, onHandshake, process, s, a + b);
      ChunkingIrrelevant(onHandshake, process, t, a[4 + n..], b);
    }
  }

  /** A unit cut short leaves the loop waiting for the rest of it. */
  lemma CutUnitWaits(u: Unit, a: seq<byte>)
    requires WellFormed(u) && |a| < |UnitBytes(u)| && a == UnitBytes(u)[..|a|]
    ensures Waiting(a)
  {
    if |a| >= 4 {
      PeerWire.HandshakeResponseIff(a);
      match u
      case Handshake(h) =>
        PeerWire.HandshakeResponseIff(h);
        PeerWire.NineteenPrefixIsLong(a);
      case Frame(m) =>
        FrameFront(m, []);
        assert UnitBytes(u) + [] == UnitBytes(u);
        assert a[..4] == UnitBytes(u)[..4];
        assert Be32(a) == Be32(a[..4]) == Be32(UnitBytes(u)[..4]) == Be32(UnitBytes(u));
    }
  }

  /**
    Any first part of a stream that `Run` handles without a throw is
    drained without a throw: a unit cut short only leaves the loop waiting.
   */
  lemma {:induction false} PrefixOfWireDoesNotThrow<S>(onHandshake: S -> S, process: (S, seq<byte>) -> Option<S>,
                                                       s: S, us: seq<Unit>, a: seq<byte>, b: seq<byte>)
    requires AllWellFormed(us) && a + b == Wire(us)
    requires !Run(onHandshake, process, s, us, []).threw
    ensures !Drain(Consume, onHandshake, process, s, a).threw
    decreases |us|
  {
    if us != [] {
      var u := UnitBytes(us[0]);
      SplitAt(u, Wire(us[1..]), a, b);
      if |a| < |u| {
        CutUnitWaits(us[0], a);
      } else {
        var rest := a[|u|..];
        match us[0]
        case Handshake(h) =>
          PeerWire.HandshakeResponsePrefix(h, rest);
          DrainHandshakeStep(onHandshake, process, s, a);
          PrefixOfWireDoesNotThrow(onHandshake, process, onHandshake(s), us[1..], rest, b);
        case Frame(m) =>
          FrameFront(m, rest);
          var t := process(s, m).value;
          DrainFrameStep(Consume, onHandshake, process, s, a);
          PrefixOfWireDoesNotThrow(onHandshake, process, t, us[1..], rest, b);
      }
    }
  }

  /** Where `a + b` equals `u + w`, `a` is a part of `u`, or `u` followed by a part of `w` that `b` completes. */
  lemma SplitAt(u: seq<byte>, w: seq<byte>, a: seq<byte>, b: seq<byte>)
    requires a + b == u + w
    ensures |a| < |u| ==> a == u[..|a|]
    ensures |a| >= |u| ==> a == u + a[|u|..] && a[|u|..] + b == w
  {
    if |a| < |u| {
      assert a == (a + b)[..|a|] == (u + w)[..|a|];
    } else {
      assert a[..|u|] == (a + b)[..|u|] == (u + w)[..|u|];
      assert a == a[..|u|] + a[|u|..];
      assert a[|u|..] + b == (a + b)[|u|..] == (u + w)[|u|..];
    }
  }

  /**
    A stream that `Run` handles without a throw, split into two chunks at
    any point: the first chunk does not throw, and handling the second
    after it ends exactly as `Run` says.
   */
  lemma WireInTwoChunks<S>(onHandshake: S -> S, process: (S, seq<byte>) -> Option<S>,
                           s: S, us: seq<Unit>, a: seq<byte>, b: seq<byte>)
    requires AllWellFormed(us) && a + b == Wire(us)
    requires !Run(onHandshake, process, s, us, []).threw
    ensures var r := Drain(Consume, onHandshake, process, s, a);
      && !r.threw
      && Drain(Consume, onHandshake, process, r.state, r.buffer + b) == Run(onHandshake, process, s, us, [])
  {
    PrefixOfWireDoesNotThrow(onHandshake, process, s, us, a, b);
    ChunkingIrrelevant(onHandshake, process, s, a, b);
    DrainOfWire(onHandshake, process, s, us, []);
    assert Wire(us) + [] == Wire(us);
  }

  /**
    Emptying the buffer on a handshake, instead, loses a message that
    arrives in the same chunk as the handshake: delivered together only
    the handshake counts, delivered apart the message is handled too.
   */
  lemma DiscardLosesFollowingFrame<S>(onHandshake: S -> S, process: (S, seq<byte>) -> Option<S>,
                                      s: S, h: seq<byte>, m: seq<byte>)
    requires WellFormed(Handshake(h)) && WellFormed(Frame(m))
    ensures var f := UnitBytes(Frame(m));
      && Drain(Discard, onHandshake, process, s, h + f) == Drained(onHandshake(s), [], false)
      && Drain(Discard, onHandshake, process, s, h) == Drained(onHandshake(s), [], false)
      && Drain(Discard, onHandshake, process, onHandshake(s), f)
         == (match process(onHandshake(s), m)
             case None => Drained(onHandshake(s), f, true)
             case Some(t) => Drained(t, [], false))
  {
    var f := UnitBytes(Frame(m));
    PeerWire.HandshakeResponsePrefix(h, f);
    FrameFront(m, []);
    assert f + [] == f;
    assert f[4 + |m|..] == [];
  }

  /**
    A message handler that treats the empty message, the keep-alive of
    BEP 3 (length prefix 0), as nothing to do and hands every other
    message to `process`.
   */
  function IgnoringKeepAlive<S>(process: (S, seq<byte>) -> Option<S>): (S, seq<byte>) -> Option<S>
  {
    (s: S, m: seq<byte>) => if |m| == 0 then Some(s) else process(s, m)
  }

  /** With keep-alives ignored, a keep-alive at the front is taken off and framing goes on with the rest. */
  lemma KeepAliveSkipped<S>(rule: HandshakeRule, onHandshake: S -> S, process: (S, seq<byte>) -> Option<S>,
                            s: S, rest: seq<byte>)
    ensures Drain(rule, onHandshake, IgnoringKeepAlive(process), s, [0, 0, 0, 0] + rest)
      == Drain(rule, onHandshake, IgnoringKeepAlive(process), s, rest)
  {
    var buf := [0, 0, 0, 0] + rest;
    PeerWire.HandshakeResponseIff(buf);
    assert Be32(buf) == 0;
    assert buf[4..4] == [];
    assert buf[4..] == rest;
    DrainFrameStep(rule, onHandshake, IgnoringKeepAlive(process), s, buf);
  }
}
