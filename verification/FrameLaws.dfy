/** Laws of whole runs of frames, said without the functions that compute them: the fragment protocol and its errors,
    pongs, compressed messages, when a path waits or closes, and what a sent message looks like on the wire. */
module FrameLaws {
  import opened Bytes
  import opened WsHeader
  import opened Masking
  import opened FrameMachine
  import opened FrameStream
  import opened Fragments
  import opened MessageCodec

  // ----- the fragment protocol

  lemma {:induction false} PlayAppend(env: Env, a: Assembly, frames: seq<Frame>, more: seq<Frame>)
    ensures var p := Play(env, a, frames);
            Play(env, a, frames + more) ==
            if p.status == Open then
              var q := Play(env, p.asm, more); q.(events := p.events + q.events)
            else p
    decreases |frames|
  {
    hide Handle;
    if frames == [] {
      assert frames + more == more;
    } else {
      assert (frames + more)[1..] == frames[1..] + more;
      var r := Handle(env, a, frames[0].h, frames[0].payload);
      if r.status == Open {
        PlayAppend(env, r.asm, frames[1..], more);
      }
    }
  }

  lemma PlayOne(env: Env, a: Assembly, f: Frame)
    ensures var r := Handle(env, a, f.h, f.payload);
            Play(env, a, [f]) == Played(r.asm, r.events, r.status)
  {
    hide Handle;
    var r := Handle(env, a, f.h, f.payload);
    assert [f][1..] == [];
    assert Play(env, r.asm, []) == Played(r.asm, [], Open);
    assert r.events + [] == r.events;
  }

  /** A run, one frame longer. */
  lemma PlayNext(env: Env, a: Assembly, frames: seq<Frame>, f: Frame)
    requires Play(env, a, frames).status == Open
    ensures var p := Play(env, a, frames);
            var r := Handle(env, p.asm, f.h, f.payload);
            Play(env, a, frames + [f]) == Played(r.asm, p.events + r.events, r.status)
  {
    hide Handle, Play;
    PlayAppend(env, a, frames, [f]);
    PlayOne(env, Play(env, a, frames).asm, f);
  }

  lemma OpenPrefix(env: Env, a: Assembly, frames: seq<Frame>)
    requires frames != [] && Play(env, a, frames).status == Open
    ensures Play(env, a, frames[..|frames| - 1]).status == Open
  {
    hide Play;
    assert frames == frames[..|frames| - 1] + [frames[|frames| - 1]];
    PlayAppend(env, a, frames[..|frames| - 1], [frames[|frames| - 1]]);
  }

  /** The last data frame has FIN clear: its message is not finished. */
  predicate InMessage(frames: seq<Frame>)
  {
    frames != [] &&
    var f, before := frames[|frames| - 1], frames[..|frames| - 1];
    if IsControl(f.h.op) then InMessage(before) else !f.h.fin
  }

  lemma {:induction false} PartialIffInMessage(env: Env, frames: seq<Frame>)
    requires Play(env, Idle, frames).status == Open
    ensures Play(env, Idle, frames).asm.Partial? <==> InMessage(frames)
    decreases |frames|
  {
    if frames != [] {
      var f, before := frames[|frames| - 1], frames[..|frames| - 1];
      assert frames == before + [f];
      OpenPrefix(env, Idle, frames);
      PartialIffInMessage(env, before);
      PlayNext(env, Idle, before, f);
      hide Play, Decompress;
    }
  }

  /** After any frames that leave the connection open: inside a message every data frame but a continuation ends the
      connection with ErrExpectedContinuation, outside one every continuation ends it with
      ErrUnexpectedContinuation, and the assembler is idle again. */
  lemma ProtocolErrors(env: Env, frames: seq<Frame>, f: Frame)
    requires Play(env, Idle, frames).status == Open && !IsControl(f.h.op)
    ensures var events := Play(env, Idle, frames).events;
            && (InMessage(frames) && f.h.op != 0 ==>
                  Play(env, Idle, frames + [f])
                  == Played(Idle, events + [Closed(Because(ExpectedContinuation))], Ended))
            && (!InMessage(frames) && f.h.op == 0 ==>
                  Play(env, Idle, frames + [f])
                  == Played(Idle, events + [Closed(Because(UnexpectedContinuation))], Ended))
  {
    PartialIffInMessage(env, frames);
    PlayNext(env, Idle, frames, f);
    hide Play;
  }

  /** Whenever a data frame ends the connection, the assembler is idle. */
  lemma ErrorsLeaveIdle(env: Env, frames: seq<Frame>, f: Frame)
    requires Play(env, Idle, frames).status == Open && !IsControl(f.h.op)
    requires Play(env, Idle, frames + [f]).status != Open
    ensures Play(env, Idle, frames + [f]).asm == Idle
  {
    PlayNext(env, Idle, frames, f);
    hide Play, Decompress;
  }

  /** A close frame ends the connection normally and leaves the message in progress alone. */
  lemma CloseEnds(env: Env, frames: seq<Frame>, f: Frame)
    requires Play(env, Idle, frames).status == Open && f.h.op == 8
    ensures var p := Play(env, Idle, frames);
            Play(env, Idle, frames + [f]) == Played(p.asm, p.events + [Closed(Normal)], Ended)
  {
    PlayNext(env, Idle, frames, f);
    hide Play;
  }

  // ----- pings and pongs

  function PingsIn(events: seq<Event>): seq<seq<byte>>
  {
    if events == [] then []
    else (if events[0].Ping? then [events[0].payload] else []) + PingsIn(events[1..])
  }

  function RepliesIn(events: seq<Event>): seq<seq<byte>>
  {
    if events == [] then []
    else (if events[0].PongReply? then [events[0].payload] else []) + RepliesIn(events[1..])
  }

  function PongsIn(events: seq<Event>): seq<seq<byte>>
  {
    if events == [] then []
    else (if events[0].Pong? then [events[0].payload] else []) + PongsIn(events[1..])
  }

  function PayloadsOf(frames: seq<Frame>, op: int): seq<seq<byte>>
  {
    if frames == [] then []
    else (if frames[0].h.op == op then [frames[0].payload] else []) + PayloadsOf(frames[1..], op)
  }

  lemma NoEvents()
    ensures PingsIn([]) == [] && RepliesIn([]) == [] && PongsIn([]) == []
  {
  }

  lemma {:induction false} PingsInBoth(a: seq<Event>, b: seq<Event>)
    ensures PingsIn(a + b) == PingsIn(a) + PingsIn(b)
    decreases |a|
  {
    if a == [] {
      assert a + b == b;
    } else {
      assert (a + b)[1..] == a[1..] + b;
      PingsInBoth(a[1..], b);
    }
  }

  lemma {:induction false} RepliesInBoth(a: seq<Event>, b: seq<Event>)
    ensures RepliesIn(a + b) == RepliesIn(a) + RepliesIn(b)
    decreases |a|
  {
    if a == [] {
      assert a + b == b;
    } else {
      assert (a + b)[1..] == a[1..] + b;
      RepliesInBoth(a[1..], b);
    }
  }

  lemma {:induction false} PongsInBoth(a: seq<Event>, b: seq<Event>)
    ensures PongsIn(a + b) == PongsIn(a) + PongsIn(b)
    decreases |a|
  {
    if a == [] {
      assert a + b == b;
    } else {
      assert (a + b)[1..] == a[1..] + b;
      PongsInBoth(a[1..], b);
    }
  }

  lemma InBoth(a: seq<Event>, b: seq<Event>)
    ensures PingsIn(a + b) == PingsIn(a) + PingsIn(b) && RepliesIn(a + b) == RepliesIn(a) + RepliesIn(b)
    ensures PongsIn(a + b) == PongsIn(a) + PongsIn(b)
  {
    PingsInBoth(a, b);
    RepliesInBoth(a, b);
    PongsInBoth(a, b);
  }

  lemma InOne(e: Event)
    ensures PingsIn([e]) == (if e.Ping? then [e.payload] else [])
    ensures RepliesIn([e]) == (if e.PongReply? then [e.payload] else [])
    ensures PongsIn([e]) == (if e.Pong? then [e.payload] else [])
  {
    assert [e][1..] == [];
    NoEvents();
  }

  /** What a frame causes that is not a ping: at most one event, no reply, and a pong exactly for a pong frame. */
  lemma OtherEvents(env: Env, a: Assembly, h: Header, payload: seq<byte>)
    requires h.op != 9
    ensures var events := Handle(env, a, h, payload).events;
            |events| <= 1 && (|events| == 1 ==>
              && events == [events[0]] && !events[0].Ping? && !events[0].PongReply?
              && (events[0].Pong? <==> h.op == 10) && (h.op == 10 ==> events[0].payload == payload))
            && (h.op == 10 ==> |events| == 1)
  {
    hide Decompress;
  }

  lemma InOneFrame(env: Env, a: Assembly, h: Header, payload: seq<byte>)
    ensures var events := Handle(env, a, h, payload).events;
            && RepliesIn(events) == PingsIn(events) == (if h.op == 9 then [payload] else [])
            && PongsIn(events) == (if h.op == 10 then [payload] else [])
  {
    hide PingsIn, RepliesIn, PongsIn, Decompress, Assemble;
    NoEvents();
    var events := Handle(env, a, h, payload).events;
    if h.op == 9 {
      assert events == [Ping(payload)] + [PongReply(payload)];
      InBoth([Ping(payload)], [PongReply(payload)]);
      InOne(Ping(payload));
      InOne(PongReply(payload));
    } else {
      OtherEvents(env, a, h, payload);
      if |events| == 1 {
        InOne(events[0]);
      }
    }
  }

  /** OnPing and OnPong get the payloads of the ping and pong frames, in order, and each ping is answered by a pong
      with its own payload. */
  lemma {:induction false} PingsAndPongs(env: Env, a: Assembly, frames: seq<Frame>)
    ensures var p := Play(env, a, frames);
            && RepliesIn(p.events) == PingsIn(p.events)
            && (p.status == Open ==>
                  PingsIn(p.events) == PayloadsOf(frames, 9) && PongsIn(p.events) == PayloadsOf(frames, 10))
    decreases |frames|
  {
    hide Handle, PingsIn, RepliesIn, PongsIn;
    if frames == [] {
      NoEvents();
    } else {
      var f := frames[0];
      var r := Handle(env, a, f.h, f.payload);
      InOneFrame(env, a, f.h, f.payload);
      if r.status == Open {
        PingsAndPongs(env, r.asm, frames[1..]);
        InBoth(r.events, Play(env, r.asm, frames[1..]).events);
      }
    }
  }

  lemma PassReplies(env: Env, a: Assembly, buf: seq<byte>)
    requires NetpollPass(env, a, buf).Took?
    ensures var events := NetpollPass(env, a, buf).result.events; RepliesIn(events) == PingsIn(events)
  {
    hide HeaderAt, Handle;
    var h, n := HeaderAt(buf).h, HeaderAt(buf).size;
    var len := if h.length > 0 then h.length else 0;
    if len <= |buf| - n {
      InOneFrame(env, a, h, Unmasked(h, buf[n..n + len]));
    }
    Unanswered([Closed(Because(FrameTooLarge))]);
    Unanswered([Closed(Because(ShortRead))]);
  }

  lemma BufferedReplies(env: Env, a: Assembly, stream: seq<byte>, endError: ReadError)
    requires |stream| >= 2
    ensures var events := BufferedPass(env, a, stream, endError).result.events; RepliesIn(events) == PingsIn(events)
  {
    hide HeaderAt, Handle;
    if HeaderReadAt(stream, endError).Got? {
      var h, n := HeaderAt(stream).h, HeaderAt(stream).size;
      if 0 <= h.length <= |stream| - n {
        InOneFrame(env, a, h, Unmasked(h, stream[n..n + h.length]));
      }
    }
    var events := BufferedPass(env, a, stream, endError).result.events;
    if |events| == 1 && events[0].Closed? {
      Unanswered(events);
    }
    NoEvents();
  }

  lemma Unanswered(events: seq<Event>)
    requires |events| == 1 && events[0].Closed?
    ensures PingsIn(events) == [] && RepliesIn(events) == []
  {
    assert events[1..] == [];
  }

  /** Over every stream of bytes, on either path, the pongs sent are the pings received, in order. */
  lemma {:induction false} EveryPingIsAnswered(env: Env, a: Assembly, buf: seq<byte>)
    ensures var events := Drain(env, a, buf).events; RepliesIn(events) == PingsIn(events)
    decreases |buf|
  {
    hide NetpollPass, Drain, RepliesIn, PingsIn;
    DrainOnce(env, a, buf);
    NoEvents();
    var p := NetpollPass(env, a, buf);
    if p.Took? {
      PassReplies(env, a, buf);
      if p.result.status == Open {
        EveryPingIsAnswered(env, p.result.asm, buf[p.taken..]);
        InBoth(p.result.events, Drain(env, p.result.asm, buf[p.taken..]).events);
      }
    }
  }

  lemma {:induction false} EveryBufferedPingIsAnswered(env: Env, a: Assembly, stream: seq<byte>, endError: ReadError)
    ensures var events := BufferedDrain(env, a, stream, endError).events; RepliesIn(events) == PingsIn(events)
    decreases |stream|
  {
    hide BufferedPass, RepliesIn, PingsIn;
    NoEvents();
    if |stream| >= 2 {
      var p := BufferedPass(env, a, stream, endError);
      BufferedReplies(env, a, stream, endError);
      if p.result.status == Open {
        EveryBufferedPingIsAnswered(env, p.result.asm, stream[p.taken..], endError);
        InBoth(p.result.events, BufferedDrain(env, p.result.asm, stream[p.taken..], endError).events);
      }
    }
  }

  // ----- single messages

  /** A message in one frame: delivered as it is, or, with RSV1 and compression agreed, delivered inflated exactly
      when the inflated stream ends cleanly within a positive limit; otherwise the connection ends with the error
      that applies. */
  lemma SingleMessage(env: Env, frames: seq<Frame>, f: Frame)
    requires Play(env, Idle, frames).status == Open && !InMessage(frames)
    requires !IsControl(f.h.op) && f.h.op != 0 && f.h.fin
    ensures var events := Play(env, Idle, frames).events;
            var p := Play(env, Idle, frames + [f]);
            var s := env.inflate(f.payload + [0x00, 0x00, 0xff, 0xff]);
            var over := env.maxFrameSize > 0 && |s.data| > env.maxFrameSize;
            if f.h.rsv != 4 || !env.compression then p == Played(Idle, events + [Message(f.h.op, f.payload)], Open)
            else if over then p == Played(Idle, events + [Closed(Because(DecompressedTooLarge))], Ended)
            else if s.clean then p == Played(Idle, events + [Message(f.h.op, s.data)], Open)
            else p == Played(Idle, events + [Closed(Because(CorruptStream))], Ended)
  {
    PartialIffInMessage(env, frames);
    PlayNext(env, Idle, frames, f);
    hide Play;
    assert SYNC_TAIL == [0x00, 0x00, 0xff, 0xff];
  }

  // ----- waiting and closing

  /** The netpoll path takes a frame as soon as all of it is there, and not before - not even one over the limit. */
  lemma WaitsForTheFrame(env: Env, a: Assembly, buf: seq<byte>)
    requires HeaderAt(buf).Parsed? && HeaderAt(buf).h.length >= 0
    requires HeaderAt(buf).size + HeaderAt(buf).h.length <= MAX_INT
    ensures NetpollPass(env, a, buf) == Wait <==> |buf| < HeaderAt(buf).size + HeaderAt(buf).h.length
    ensures NetpollPass(env, a, buf) != Wait && env.maxFrameSize > 0 && HeaderAt(buf).h.length > env.maxFrameSize ==>
              NetpollPass(env, a, buf)
              == Took(HeaderAt(buf).size, Handled(a, [Closed(Because(FrameTooLarge))], Ended))
  {
    hide HeaderAt, Handle;
  }

  /** The buffered path closes at once on a frame over the limit; where the stream ends inside a frame it reports the
      end of the stream inside the header, and a short read inside the payload. */
  lemma BufferedEnds(env: Env, a: Assembly, stream: seq<byte>, endError: ReadError)
    requires |stream| >= 2
    ensures HeaderAt(stream) == NeedMore ==>
              BufferedDrain(env, a, stream, endError) ==
              Run(a, stream, [Closed(if endError == Eof then Normal else Because(HeaderReadError(endError)))], Ended)
    ensures HeaderAt(stream).Parsed? && env.maxFrameSize > 0 && HeaderAt(stream).h.length > env.maxFrameSize ==>
              BufferedDrain(env, a, stream, endError) ==
              Run(a, stream[HeaderAt(stream).size..], [Closed(Because(FrameTooLarge))], Ended)
    ensures HeaderAt(stream).Parsed? && !(env.maxFrameSize > 0 && HeaderAt(stream).h.length > env.maxFrameSize)
            && HeaderAt(stream).h.length > |stream| - HeaderAt(stream).size ==>
              BufferedDrain(env, a, stream, endError) == Run(a, [], [Closed(Because(ShortRead))], Ended)
  {
    hide HeaderAt, Handle;
    assert stream[0..] == stream && stream[|stream|..] == [];
  }

  // ----- what is sent

  /** The first frame of what a message puts on the wire, read back: one unfragmented frame with the message's opcode;
      RSV1 and the deflated payload exactly when compression is on, the opcode is no ping, pong or close, and the
      payload has at least 1024 bytes; masked as asked. */
  lemma WireMeaning(enabled: bool, deflate: seq<byte> -> seq<byte>, m: Outgoing)
    requires WellFormed(FrameOf(enabled, deflate, m).h) && |m.key| == 4
    ensures var wire := BytesToSend(enabled, deflate, m);
            var compressed := enabled && m.op != 8 && m.op != 9 && m.op != 10 && |m.payload| >= 1024;
            var data := if compressed then deflate(m.payload) else m.payload;
            && HeaderAt(wire).Parsed?
            && var h, n := HeaderAt(wire).h, HeaderAt(wire).size;
            && h.fin && h.rsv == (if compressed then 4 else 0) && h.op == m.op && h.masked == m.masked
            && (m.masked ==> h.mask == m.key) && h.length == |data|
            && wire[n..] == if m.masked then Cipher(data, m.key) else data
  {
    hide HeaderAt, EncodeHeader, Cipher;
    var f := FrameOf(enabled, deflate, m);
    HeaderRoundTrip(f.h, Unmasked(f.h, f.payload));
    var wire := BytesToSend(enabled, deflate, m);
    assert wire[|EncodeHeader(f.h)|..] == Unmasked(f.h, f.payload);
  }
}
