/** Messages on the wire: what writeMessageInternal (pkg/websocket/writer.go) sends and what the receiving loop
    makes of it. */
module MessageCodec {
  import opened Bytes
  import opened WsHeader
  import opened Masking
  import opened FrameMachine
  import opened FrameStream
  import opened Fragments

  const MIN_COMPRESS_SIZE := 1024

  /** A message to send: opcode, payload, and the key rand.Read gave if the writer masks. */
  datatype Outgoing = Outgoing(op: int, payload: seq<byte>, masked: bool, key: seq<byte>)

  /** DEFLATE and INFLATE undo each other; the sync tail after a finished stream is ignored. */
  ghost predicate Inverse(env: Env, deflate: seq<byte> -> seq<byte>)
  {
    forall x :: env.inflate(deflate(x) + SYNC_TAIL) == Inflated(x, true)
  }

  predicate Compresses(enabled: bool, m: Outgoing)
  {
    enabled && m.op != OP_PING && m.op != OP_PONG && m.op != OP_CLOSE && |m.payload| >= MIN_COMPRESS_SIZE
  }

  function FrameOf(enabled: bool, deflate: seq<byte> -> seq<byte>, m: Outgoing): Frame
  {
    var compressed := Compresses(enabled, m);
    var wire := if compressed then deflate(m.payload) else m.payload;
    Frame(Header(true, if compressed then 4 else 0, m.op, m.masked, |wire|, if m.masked then m.key else NO_MASK), wire)
  }

  /** A text or binary message whose frame can be sent at all. */
  ghost predicate CanSend(enabled: bool, deflate: seq<byte> -> seq<byte>, m: Outgoing)
  {
    (m.op == OP_TEXT || m.op == OP_BINARY) && |m.key| == 4
    && |FrameOf(enabled, deflate, m).payload| <= MAX_INT - 14
  }

  lemma FrameCanBeSent(enabled: bool, deflate: seq<byte> -> seq<byte>, m: Outgoing)
    requires CanSend(enabled, deflate, m)
    ensures WellFormed(FrameOf(enabled, deflate, m).h) && |EncodeHeader(FrameOf(enabled, deflate, m).h)| <= 14
  {
  }

  function BytesToSend(enabled: bool, deflate: seq<byte> -> seq<byte>, m: Outgoing): seq<byte>
    requires WellFormed(FrameOf(enabled, deflate, m).h)
  {
    WireOf(FrameOf(enabled, deflate, m))
  }

  /** Both the frame and the message fit the receiver's limit; deflate may make a frame longer than its
      message. */
  predicate Fits(env: Env, enabled: bool, deflate: seq<byte> -> seq<byte>, m: Outgoing)
  {
    env.maxFrameSize > 0 ==>
      |m.payload| <= env.maxFrameSize && |FrameOf(enabled, deflate, m).payload| <= env.maxFrameSize
  }

  /** One message at the front of the stream is delivered unchanged exactly when it fits; otherwise the
      receiver closes the connection. */
  lemma OneMessage(env: Env, enabled: bool, deflate: seq<byte> -> seq<byte>, m: Outgoing, rest: seq<byte>)
    requires Inverse(env, deflate) && (enabled ==> env.compression) && CanSend(enabled, deflate, m)
    requires WellFormed(FrameOf(enabled, deflate, m).h)
    ensures var r := Drain(env, Idle, BytesToSend(enabled, deflate, m) + rest);
            && (Fits(env, enabled, deflate, m) ==>
                  r == After([Message(m.op, m.payload)], Drain(env, Idle, rest)))
            && (!Fits(env, enabled, deflate, m) ==>
                  r.events == [Closed(Because(if |FrameOf(enabled, deflate, m).payload| > env.maxFrameSize
                                              then FrameTooLarge else DecompressedTooLarge))] && r.status == Ended)
  {
    hide NetpollPass, WireOf, EncodeHeader, Drain, Handle;
    FrameCanBeSent(enabled, deflate, m);
    var f := FrameOf(enabled, deflate, m);
    var wire := BytesToSend(enabled, deflate, m);
    DrainOnce(env, Idle, wire + rest);
    if env.maxFrameSize > 0 && |f.payload| > env.maxFrameSize {
      TooLargeIsRefused(env, Idle, f, rest);
    } else {
      assert (wire + rest)[|wire|..] == rest;
      FrameIsTaken(env, Idle, f, rest);
      MessageIsHandled(env, enabled, deflate, m);
    }
  }

  /** What the receiver makes of the frame. */
  lemma MessageIsHandled(env: Env, enabled: bool, deflate: seq<byte> -> seq<byte>, m: Outgoing)
    requires Inverse(env, deflate) && (enabled ==> env.compression) && (m.op == OP_TEXT || m.op == OP_BINARY)
    ensures var f := FrameOf(enabled, deflate, m);
            Handle(env, Idle, f.h, f.payload) ==
            if env.maxFrameSize > 0 && Compresses(enabled, m) && |m.payload| > env.maxFrameSize
            then Handled(Idle, [Closed(Because(DecompressedTooLarge))], Ended)
            else Handled(Idle, [Message(m.op, m.payload)], Open)
  {
  }

  lemma TooLargeIsRefused(env: Env, a: Assembly, f: Frame, rest: seq<byte>)
    requires WellFormed(f.h) && f.h.length == |f.payload| && |EncodeHeader(f.h)| + |f.payload| <= MAX_INT
    requires env.maxFrameSize > 0 && |f.payload| > env.maxFrameSize
    ensures NetpollPass(env, a, WireOf(f) + rest)
         == Took(|EncodeHeader(f.h)|, Handled(a, [Closed(Because(FrameTooLarge))], Ended))
  {
    hide HeaderAt, EncodeHeader, Cipher;
    var body := Unmasked(f.h, f.payload);
    assert WireOf(f) + rest == EncodeHeader(f.h) + (body + rest);
    HeaderRoundTrip(f.h, body + rest);
  }

  ghost predicate AllSendable(env: Env, enabled: bool, deflate: seq<byte> -> seq<byte>, ms: seq<Outgoing>)
  {
    forall i :: 0 <= i < |ms| ==> CanSend(enabled, deflate, ms[i]) && Fits(env, enabled, deflate, ms[i])
  }

  /** Everything a list of sends puts on the connection. */
  ghost function Sent(enabled: bool, deflate: seq<byte> -> seq<byte>, ms: seq<Outgoing>): seq<byte>
    requires forall i :: 0 <= i < |ms| ==> CanSend(enabled, deflate, ms[i])
  {
    if ms == [] then [] else
      FrameCanBeSent(enabled, deflate, ms[0]);
      BytesToSend(enabled, deflate, ms[0]) + Sent(enabled, deflate, ms[1..])
  }

  function Deliveries(ms: seq<Outgoing>): seq<Event>
  {
    if ms == [] then [] else [Message(ms[0].op, ms[0].payload)] + Deliveries(ms[1..])
  }

  lemma {:induction false} OneShot(env: Env, enabled: bool, deflate: seq<byte> -> seq<byte>, ms: seq<Outgoing>)
    requires Inverse(env, deflate) && (enabled ==> env.compression) && AllSendable(env, enabled, deflate, ms)
    ensures Drain(env, Idle, Sent(enabled, deflate, ms)) == Run(Idle, [], Deliveries(ms), Open)
    decreases |ms|
  {
    hide BytesToSend, Inverse, CanSend, Fits;
    if ms == [] {
      NothingToTake(env, Idle);
    } else {
      assert CanSend(enabled, deflate, ms[0]) && Fits(env, enabled, deflate, ms[0]);
      FrameCanBeSent(enabled, deflate, ms[0]);
      assert AllSendable(env, enabled, deflate, ms[1..]) by {
        assert forall i :: 0 <= i < |ms| - 1 ==> ms[1..][i] == ms[i + 1];
      }
      OneMessage(env, enabled, deflate, ms[0], Sent(enabled, deflate, ms[1..]));
      OneShot(env, enabled, deflate, ms[1..]);
    }
  }

  /** End to end: any list of text and binary messages, masked or not and compressed or not, cut into pieces in
      any way on arrival, gives exactly those OnMessage calls, in order, with no bytes left over. */
  lemma RoundTrip(env: Env, enabled: bool, deflate: seq<byte> -> seq<byte>, ms: seq<Outgoing>, pieces: seq<seq<byte>>)
    requires Inverse(env, deflate) && (enabled ==> env.compression) && AllSendable(env, enabled, deflate, ms)
    requires Concat(pieces) == Sent(enabled, deflate, ms) && |Concat(pieces)| <= MAX_INT
    ensures Feed(env, Idle, [], pieces) == Run(Idle, [], Deliveries(ms), Open)
  {
    hide Inverse, AllSendable, Deliveries;
    OneShot(env, enabled, deflate, ms);
    NothingToTake(env, Idle);
    assert [] + Concat(pieces) == Concat(pieces);
    AnySplitIsOneShot(env, Idle, [], pieces);
  }
}
