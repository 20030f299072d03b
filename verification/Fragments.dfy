/** Properties of frame sequences: fragments of one message, control frames between them, and the bytes
    that carry them. */
module Fragments {
  import opened Bytes
  import opened WsHeader
  import opened Masking
  import opened FrameMachine

  /** A frame as the receiver sees it: its header and its unmasked payload. */
  datatype Frame = Frame(h: Header, payload: seq<byte>)

  datatype Played = Played(asm: Assembly, events: seq<Event>, status: Status)

  /** processFrame on each frame in turn, up to the first that ends the connection. */
  function Play(env: Env, a: Assembly, frames: seq<Frame>): Played
    decreases |frames|
  {
    if frames == [] then Played(a, [], Open)
    else
      var r := Handle(env, a, frames[0].h, frames[0].payload);
      if r.status == Open then
        var p := Play(env, r.asm, frames[1..]);
        p.(events := r.events + p.events)
      else Played(r.asm, r.events, r.status)
  }

  // ----- control frames in between

  predicate PingOrPong(f: Frame)
  {
    f.h.op == OP_PING || f.h.op == OP_PONG
  }

  function WithoutPings(frames: seq<Frame>): seq<Frame>
  {
    if frames == [] then []
    else if PingOrPong(frames[0]) then WithoutPings(frames[1..])
    else [frames[0]] + WithoutPings(frames[1..])
  }

  function MessagesAndCloses(events: seq<Event>): seq<Event>
  {
    if events == [] then []
    else if events[0].Message? || events[0].Closed? then [events[0]] + MessagesAndCloses(events[1..])
    else MessagesAndCloses(events[1..])
  }

  lemma {:induction false} FilterAppend(a: seq<Event>, b: seq<Event>)
    ensures MessagesAndCloses(a + b) == MessagesAndCloses(a) + MessagesAndCloses(b)
    decreases |a|
  {
    if a == [] {
      assert a + b == b;
    } else {
      FilterAppend(a[1..], b);
      assert (a + b)[1..] == a[1..] + b;
    }
  }

  /** Deleting every ping and pong frame from a stream, wherever they are, changes no delivered message, not
      how the connection ends, and not the assembler. */
  lemma {:induction false} PingsAreInvisible(env: Env, a: Assembly, frames: seq<Frame>)
    ensures var p, q := Play(env, a, frames), Play(env, a, WithoutPings(frames));
            p.asm == q.asm && p.status == q.status && MessagesAndCloses(p.events) == MessagesAndCloses(q.events)
    decreases |frames|
  {
    hide Assemble;
    if frames != [] {
      var f := frames[0];
      var r := Handle(env, a, f.h, f.payload);
      if PingOrPong(f) {
        assert MessagesAndCloses(r.events) == [] by { PingEvents(env, a, f); }
      } else {
        assert WithoutPings(frames)[0] == f && WithoutPings(frames)[1..] == WithoutPings(frames[1..]);
      }
      if r.status == Open {
        PingsAreInvisible(env, r.asm, frames[1..]);
        FilterAppend(r.events, Play(env, r.asm, frames[1..]).events);
        FilterAppend(r.events, Play(env, r.asm, WithoutPings(frames[1..])).events);
      }
    }
  }

  lemma PingEvents(env: Env, a: Assembly, f: Frame)
    requires PingOrPong(f)
    ensures var r := Handle(env, a, f.h, f.payload);
            r.asm == a && r.status == Open && MessagesAndCloses(r.events) == []
  {
    var r := Handle(env, a, f.h, f.payload);
    if f.h.op == OP_PING {
      var tail := r.events[1..];
      assert tail == [PongReply(f.payload)] && tail[1..] == [];
      assert MessagesAndCloses(tail) == [];
    } else {
      assert r.events[1..] == [];
    }
  }

  // ----- one message in several frames

  predicate Continuations(frames: seq<Frame>)
  {
    && frames != []
    && (forall i :: 0 <= i < |frames| ==> frames[i].h.op == OP_CONTINUATION)
    && (forall i :: 0 <= i < |frames| ==> frames[i].h.fin == (i == |frames| - 1))
  }

  function PayloadOf(frames: seq<Frame>): seq<byte>
  {
    if frames == [] then [] else frames[0].payload + PayloadOf(frames[1..])
  }

  /** What completing a message does. */
  function Complete(env: Env, compressed: bool, op: int, data: seq<byte>): Played
  {
    match (if compressed then Decompress(env, op, data) else Deliver(op, data))
    case Deliver(o, d) => Played(Idle, [Message(o, d)], Open)
    case Fault(e) => Played(Idle, [Closed(Because(e))], Ended)
    case Nothing => Played(Idle, [], Open)
  }

  /** From a message in progress, its continuation frames deliver the whole concatenation under the first
      frame's opcode and compression - or end the connection, exactly when the whole is over the limit. */
  lemma {:induction false} ContinuationsComplete(env: Env, data: seq<byte>, compressed: bool, op: int, frames: seq<Frame>)
    requires Continuations(frames)
    ensures var whole := data + PayloadOf(frames);
            Play(env, Partial(data, compressed, op), frames) ==
            if env.maxFrameSize > 0 && |whole| > env.maxFrameSize
            then Played(Idle, [Closed(Because(MessageTooLarge))], Ended)
            else Complete(env, compressed, op, whole)
    decreases |frames|
  {
    hide Decompress;
    var f, rest := frames[0], frames[1..];
    var whole := data + PayloadOf(frames);
    assert whole == data + f.payload + PayloadOf(rest);
    assert Play(env, Idle, []) == Played(Idle, [], Open);
    if rest == [] {
      assert whole == data + f.payload;
    } else if !(env.maxFrameSize > 0 && |data| + |f.payload| > env.maxFrameSize) {
      assert forall i :: 0 <= i < |rest| ==> rest[i] == frames[i + 1];
      ContinuationsComplete(env, data + f.payload, compressed, op, rest);
      var p := Play(env, Partial(data + f.payload, compressed, op), rest);
      assert p.(events := [] + p.events) == p;
    }
  }

  /** A fragmented message from idle, with any pings and pongs among its frames: the messages delivered are
      exactly its concatenation (inflated when its first frame says so), and the assembler is idle again. */
  lemma FragmentedMessage(env: Env, first: Frame, rest: seq<Frame>, frames: seq<Frame>)
    requires WithoutPings(frames) == [first] + rest && Continuations(rest)
    requires !IsControl(first.h.op) && first.h.op != OP_CONTINUATION && !first.h.fin
    ensures var whole := first.payload + PayloadOf(rest);
            var p := Play(env, Idle, frames);
            var expected := if env.maxFrameSize > 0 && |whole| > env.maxFrameSize
                            then Played(Idle, [Closed(Because(MessageTooLarge))], Ended)
                            else Complete(env, first.h.rsv == 4 && env.compression, first.h.op, whole);
            p.asm == Idle && p.status == expected.status && MessagesAndCloses(p.events) == expected.events
  {
    hide Play, Complete, MessagesAndCloses;
    var compressed := first.h.rsv == 4 && env.compression;
    PingsAreInvisible(env, Idle, frames);
    FirstFragment(env, first, rest);
    ContinuationsComplete(env, first.payload, compressed, first.h.op, rest);
    CompletingIsOneEvent(env, compressed, first.h.op, first.payload + PayloadOf(rest));
    OneEvent(Closed(Because(MessageTooLarge)));
  }

  lemma FirstFragment(env: Env, first: Frame, rest: seq<Frame>)
    requires !IsControl(first.h.op) && first.h.op != OP_CONTINUATION && !first.h.fin
    ensures Play(env, Idle, [first] + rest)
         == Play(env, Partial(first.payload, first.h.rsv == 4 && env.compression, first.h.op), rest)
  {
    hide Decompress;
    assert ([first] + rest)[1..] == rest;
    var t := Play(env, Partial(first.payload, first.h.rsv == 4 && env.compression, first.h.op), rest);
    assert [] + t.events == t.events;
  }

  lemma OneEvent(e: Event)
    requires e.Message? || e.Closed?
    ensures MessagesAndCloses([e]) == [e]
  {
    assert [e][1..] == [];
  }

  lemma CompletingIsOneEvent(env: Env, compressed: bool, op: int, data: seq<byte>)
    ensures var c := Complete(env, compressed, op, data); c.asm == Idle && MessagesAndCloses(c.events) == c.events
  {
    OneEvent(Complete(env, compressed, op, data).events[0]);
  }

  // ----- frames as bytes

  /** A frame that can be sent and is within the receiver's limit. */
  ghost predicate Sendable(env: Env, f: Frame)
  {
    && WellFormed(f.h) && f.h.length == |f.payload| && |EncodeHeader(f.h)| + |f.payload| <= MAX_INT
    && (env.maxFrameSize > 0 ==> |f.payload| <= env.maxFrameSize)
  }

  function WireOf(f: Frame): seq<byte>
    requires WellFormed(f.h)
  {
    EncodeHeader(f.h) + Unmasked(f.h, f.payload)
  }

  ghost function WireOfAll(env: Env, frames: seq<Frame>): seq<byte>
    requires forall i :: 0 <= i < |frames| ==> Sendable(env, frames[i])
  {
    if frames == [] then [] else
      assert Sendable(env, frames[0]);
      assert forall i :: 0 <= i < |frames| - 1 ==> frames[1..][i] == frames[i + 1];
      WireOf(frames[0]) + WireOfAll(env, frames[1..])
  }

  /** One frame's bytes are taken in one pass, whole, and unmasked to what was sent. */
  lemma FrameIsTaken(env: Env, a: Assembly, f: Frame, rest: seq<byte>)
    requires Sendable(env, f)
    ensures NetpollPass(env, a, WireOf(f) + rest) == Took(|WireOf(f)|, Handle(env, a, f.h, f.payload))
  {
    hide Handle, HeaderAt, EncodeHeader, Cipher;
    var body := Unmasked(f.h, f.payload);
    var buf := WireOf(f) + rest;
    assert buf == EncodeHeader(f.h) + (body + rest);
    HeaderRoundTrip(f.h, body + rest);
    var n := |EncodeHeader(f.h)|;
    assert buf[n..n + |f.payload|] == body;
    if f.h.masked {
      CipherTwice(f.payload, f.h.mask);
    }
    assert |f.payload| == 0 ==> buf[n..n + 0] == body;
  }

  /** Reading the bytes of a list of frames is playing the frames. */
  lemma {:induction false} DrainPlaysFrames(env: Env, a: Assembly, frames: seq<Frame>)
    requires forall i :: 0 <= i < |frames| ==> Sendable(env, frames[i])
    ensures var r, p := Drain(env, a, WireOfAll(env, frames)), Play(env, a, frames);
            r.asm == p.asm && r.events == p.events && r.status == p.status && (p.status == Open ==> r.rest == [])
    decreases |frames|
  {
    hide Handle, NetpollPass, WireOf, WellFormed;
    if frames == [] {
      NothingToTake(env, a);
    } else {
      assert forall i :: 0 <= i < |frames| - 1 ==> frames[1..][i] == frames[i + 1];
      var f, later := frames[0], WireOfAll(env, frames[1..]);
      assert Sendable(env, f);
      FrameIsTaken(env, a, f, later);
      var r := Handle(env, a, f.h, f.payload);
      assert WireOfAll(env, frames) == WireOf(f) + later;
      assert (WireOf(f) + later)[|WireOf(f)|..] == later;
      if r.status == Open {
        DrainPlaysFrames(env, r.asm, frames[1..]);
      }
    }
  }

  lemma NothingToTake(env: Env, a: Assembly)
    ensures NetpollPass(env, a, []) == Wait
  {
  }
}
