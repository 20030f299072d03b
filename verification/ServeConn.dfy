/** processFrame and both transport paths of ServeConn (pkg/websocket/websocket.go), on real buffers: they do
    what the frame machine says, and no pool buffer is put twice or read after it was put.  One is lost only where
    the code panics, and that is counted. */
module ServeConns {
  import opened Bytes
  import opened WsHeader
  import opened Masking
  import opened FrameMachine
  import opened FrameStream
  import opened BufferPool
  import opened Compression
  import opened Assemblers

  /** A slice that may be read: memory the pool never saw, or a buffer it has lent. */
  ghost predicate Live(pool: Pool, s: Slice)
    reads pool
  {
    InBounds(s) && (s.arr in pool.known ==> s.arr in pool.lent)
  }

  /** A connection with its handler and its assembler. */
  class Session {
    var input: seq<byte>       // what the netpoll reader holds
    var active: bool
    var events: seq<Event>     // the handler's callbacks and the pongs written, in order
    const pool: Pool
    const assembler: Assembler

    constructor (pool: Pool, assembler: Assembler)
      ensures this.pool == pool && this.assembler == assembler && input == [] && active && events == []
    {
      this.pool, this.assembler := pool, assembler;
      input, active, events := [], true, [];
    }

    ghost predicate Valid()
      reads pool, assembler
    {
      pool.Valid() && assembler.Valid(pool)
    }

    ghost function Abs(): Assembly
      requires Valid()
      reads pool, assembler, assembler.Held()
    {
      assembler.Abs()
    }

    /** Ping: the payload goes to the callback and back to the peer. */
    method Control(h: Header, payload: Slice) returns (ended: bool)
      requires IsControl(h.op) && Live(pool, payload)
      modifies this`events, this`active
      ensures var r := Handle(Env(0, false, _ => Inflated([], true)), Idle, h, Content(payload));
              events == old(events) + r.events && (ended <==> r.status != Open)
      ensures active == (old(active) && h.op != OP_CLOSE)
    {
      if h.op == OP_CLOSE {
        events := events + [Closed(Normal)];
        active := false;
        return true;
      } else if h.op == OP_PING {
        events := events + [Ping(payload.arr[..payload.len])];
        events := events + [PongReply(payload.arr[..payload.len])];
      } else if h.op == OP_PONG {
        events := events + [Pong(payload.arr[..payload.len])];
      }
      return false;
    }

    /** Lines 374-387: a reassembled message goes back to the pool after the callback. */
    method DataFrame(env: Env, h: Header, payload: Slice) returns (ended: bool)
      requires Valid() && Live(pool, payload) && payload.arr !in assembler.Held() && !IsControl(h.op)
      modifies this`events, assembler, pool, pool.known
      ensures Valid()
      ensures var r := Handle(env, old(Abs()), h, old(Content(payload)));
              events == old(events) + r.events && Abs() == r.asm && (ended <==> r.status != Open)
      ensures pool.lent == old(pool.lent) - old(assembler.Held()) + assembler.Held()
      ensures assembler.Held() <= old(assembler.Held()) || assembler.Held() !! old(pool.lent)
      ensures old(pool.known) <= pool.known && fresh(pool.known - old(pool.known))
      ensures pool.dropped == old(pool.dropped)
      ensures Unchanged(old(pool.lent) - old(assembler.Held()))
    {
      hide pool.Valid, Assemble, GrowthCost, IsCapacity, CapFor;
      var r := assembler.ProcessFrame(pool, env, h, payload);
      if r.Failure? {
        events := events + [Closed(Because(r.error))];
        return true;
      }
      if r.Whole? {
        assert Live(pool, r.s) by { LentIsKnown(pool); }
        events := events + [Message(r.op, r.s.arr[..r.s.len])];
        if r.isReassembled {
          LentIsKnown(pool);
          pool.Put(r.s);
        }
      }
      return false;
    }

    /** processFrame: the payload is unmasked where it lies. */
    method ProcessFrame(env: Env, h: Header, payload: Slice) returns (ended: bool)
      requires Valid() && Live(pool, payload) && payload.arr !in assembler.Held() && |h.mask| == 4
      modifies this`events, this`active, assembler, pool, pool.known, payload.arr
      ensures Valid()
      ensures var r := Handle(env, old(Abs()), h, Unmasked(h, old(Content(payload))));
              events == old(events) + r.events && Abs() == r.asm && (ended <==> r.status != Open)
      ensures active == (old(active) && h.op != OP_CLOSE)
      ensures pool.lent == old(pool.lent) - old(assembler.Held()) + assembler.Held()
      ensures assembler.Held() <= old(assembler.Held()) || assembler.Held() !! old(pool.lent)
      ensures old(pool.known) <= pool.known && fresh(pool.known - old(pool.known))
      ensures pool.dropped == old(pool.dropped)
      ensures Unchanged(old(pool.lent) - old(assembler.Held()) - {payload.arr})
    {
      hide pool.Valid, Assemble, GrowthCost, IsCapacity, CapFor, Cipher;
      if h.masked {
        CipherInPlace(payload.arr, payload.len, h.mask);
      }
      assert Content(payload) == Unmasked(h, old(Content(payload)));
      assert Abs() == old(Abs());
      if IsControl(h.op) {
        ended := Control(h, payload);
        return;
      }
      ended := DataFrame(env, h, payload);
    }

    /** Lines 293-332 on the netpoll path: the payload is netpoll's own memory. */
    method NetpollBody(env: Env, h: Header) returns (ended: bool)
      requires Valid() && |h.mask| == 4 && h.length <= MAX_INT
      modifies this`input, this`events, this`active, assembler, pool, pool.known
      ensures Valid()
      ensures env.maxFrameSize > 0 && h.length > env.maxFrameSize ==>
                && ended && input == old(input) && events == old(events) + [Closed(Because(FrameTooLarge))]
                && Abs() == old(Abs()) && active == old(active)
      ensures !(env.maxFrameSize > 0 && h.length > env.maxFrameSize) && h.length > |old(input)| ==>
                && ended && input == old(input) && events == old(events) + [Closed(Because(ShortRead))]
                && Abs() == old(Abs()) && active == old(active)
      ensures !(env.maxFrameSize > 0 && h.length > env.maxFrameSize) && h.length <= |old(input)| ==>
                var len := if h.length > 0 then h.length else 0;
                var r := Handle(env, old(Abs()), h, Unmasked(h, old(input)[..len]));
                && (ended <==> r.status != Open) && input == old(input)[len..] && events == old(events) + r.events
                && Abs() == r.asm && active == (old(active) && h.op != OP_CLOSE)
      ensures pool.lent == old(pool.lent) - old(assembler.Held()) + assembler.Held()
      ensures assembler.Held() <= old(assembler.Held()) || assembler.Held() !! old(pool.lent)
      ensures old(pool.known) <= pool.known && fresh(pool.known - old(pool.known))
      ensures pool.dropped == old(pool.dropped)
      ensures Unchanged(old(pool.lent) - old(assembler.Held()))
    {
      hide pool.Valid, Handle, GrowthCost, IsCapacity, CapFor, Cipher, BucketsOk;
      if env.maxFrameSize > 0 && h.length > env.maxFrameSize {
        events := events + [Closed(Because(FrameTooLarge))];
        return true;
      }
      if h.length > |input| {
        events := events + [Closed(Because(ShortRead))];
        return true;
      }
      // Next(n); Next of n <= 0 is empty
      var len := if h.length > 0 then h.length else 0;
      var wire := input[..len];
      var memory := new byte[len](i requires 0 <= i < |wire| => wire[i]);
      input := input[len..];
      assert memory[..len] == wire;
      LentIsKnown(pool);
      ended := ProcessFrame(env, h, Slice(memory, len));
    }

    /** One pass of the loop on the netpoll path, lines 247-332. */
    method NetpollOnce(env: Env) returns (waiting: bool, ended: bool)
      requires Valid() && |input| <= MAX_INT
      modifies this`input, this`events, this`active, assembler, pool, pool.known
      ensures Valid()
      ensures match NetpollPass(env, old(Abs()), old(input))
              case Wait => waiting && input == old(input) && events == old(events) && Abs() == old(Abs())
                           && active == old(active)
              case Took(n, r) => !waiting && input == old(input)[n..] && events == old(events) + r.events
                                 && Abs() == r.asm && (ended <==> r.status != Open)
                                 && active == (old(active) && Closed(Normal) !in r.events)
                                 && (Closed(Normal) in r.events ==> ended)
      ensures pool.lent == old(pool.lent) - old(assembler.Held()) + assembler.Held()
      ensures assembler.Held() <= old(assembler.Held()) || assembler.Held() !! old(pool.lent)
      ensures old(pool.known) <= pool.known && fresh(pool.known - old(pool.known))
      ensures pool.dropped == old(pool.dropped)
      ensures Unchanged(old(pool.lent) - old(assembler.Held()))
    {
      hide pool.Valid, Handle, HeaderAt, GrowthCost, Unmasked, BucketsOk, NetpollPass;
      var available := |input|;
      ghost var buf, a := input, Abs();
      PassIs(env, a, buf);
      if available < 2 {
        return true, false;
      }
      var k := if available < 14 then available else 14;
      PeekIsEnough(input, k);
      var h, headerBytes, _ := ParseHeader(input[..k]);
      if headerBytes == 0 || available < WrapAdd(headerBytes, h.length) {
        return true, false;
      }
      LengthIsInt64(buf);
      input := input[headerBytes..];
      ended := NetpollBody(env, h);
      return false, ended;
    }

    /** ServeConn without a bufio.Reader: on an active connection, exactly the run of the frame machine on what
        has arrived; the only pool buffer it keeps is the assembler's. */
    method ServeNetpoll(env: Env) returns (status: Status)
      requires Valid() && |input| <= MAX_INT
      modifies this`input, this`events, this`active, assembler, pool, pool.known
      ensures Valid()
      ensures !old(active) ==> events == old(events) + [Closed(Normal)] && status == Ended && input == old(input)
      ensures old(active) ==>
                var r := Drain(env, old(Abs()), old(input));
                && events == old(events) + r.events && input == r.rest && Abs() == r.asm && status == r.status
                && (active <==> Closed(Normal) !in r.events)
      ensures pool.lent == old(pool.lent) - old(assembler.Held()) + assembler.Held()
      ensures assembler.Held() <= old(assembler.Held()) || assembler.Held() !! old(pool.lent)
      ensures old(pool.known) <= pool.known && fresh(pool.known - old(pool.known))
      ensures pool.dropped == old(pool.dropped)
      ensures Unchanged(old(pool.lent) - old(assembler.Held()))
    {
      hide pool.Valid, NetpollPass, Drain, After, GrowthCost;
      if !active {
        events := events + [Closed(Normal)];
        return Ended;
      }
      ghost var done: seq<Event> := [];
      ghost var run := Drain(env, Abs(), input);
      AfterBoth([], [], run);
      while true
        invariant Valid() && |input| <= MAX_INT && active && Closed(Normal) !in done
        invariant events == old(events) + done && run == After(done, Drain(env, Abs(), input))
        invariant pool.lent == old(pool.lent) - old(assembler.Held()) + assembler.Held()
        invariant assembler.Held() <= old(assembler.Held()) || assembler.Held() !! old(pool.lent)
        invariant old(pool.known) <= pool.known && fresh(pool.known - old(pool.known))
        invariant pool.dropped == old(pool.dropped)
        invariant Unchanged(old(pool.lent) - old(assembler.Held()))
        decreases |input|
      {
        ghost var pass := NetpollPass(env, Abs(), input);
        DrainOnce(env, Abs(), input);
        PassEnds(env, Abs(), input);
        var waiting, ended := NetpollOnce(env);
        if waiting {
          Together(done, Abs(), input, [], Open);
          return Open;
        }
        AfterBoth(done, pass.result.events, Drain(env, Abs(), input));
        Together(done, Abs(), input, pass.result.events, Ended);
        done := done + pass.result.events;
        if ended {
          return Ended;
        }
      }
    }

    /** The read handler is called each time more bytes have arrived, until it reports an end: over the whole life
        of the connection the callbacks are those of Feed, and the only pool buffer ever kept is the assembler's. */
    method ServeArrivals(env: Env, pieces: seq<seq<byte>>) returns (status: Status)
      requires Valid() && active && |input + Concat(pieces)| <= MAX_INT
      modifies this`input, this`events, this`active, assembler, pool, pool.known
      ensures Valid()
      ensures var r := Feed(env, old(Abs()), old(input), pieces);
              events == old(events) + r.events && input == r.rest && Abs() == r.asm && status == r.status
      ensures pool.lent == old(pool.lent) - old(assembler.Held()) + assembler.Held()
      ensures Unchanged(old(pool.lent) - old(assembler.Held()))
      ensures pool.dropped == old(pool.dropped)
    {
      hide pool.Valid, Drain, Feed, After, GrowthCost, Concat;
      ghost var done: seq<Event> := [];
      ghost var run := Feed(env, Abs(), input, pieces);
      AfterBoth([], [], run);
      assert pieces[0..] == pieces;
      for i := 0 to |pieces|
        invariant Valid() && active && |input + Concat(pieces[i..])| <= MAX_INT
        invariant events == old(events) + done && run == After(done, Feed(env, Abs(), input, pieces[i..]))
        invariant pool.lent == old(pool.lent) - old(assembler.Held()) + assembler.Held()
        invariant assembler.Held() <= old(assembler.Held()) || assembler.Held() !! old(pool.lent)
        invariant old(pool.known) <= pool.known && fresh(pool.known - old(pool.known))
        invariant pool.dropped == old(pool.dropped)
        invariant Unchanged(old(pool.lent) - old(assembler.Held()))
      {
        ghost var r := Drain(env, Abs(), input + pieces[i]);
        FeedStep(env, Abs(), input, pieces[i..]);
        assert pieces[i..][1..] == pieces[i + 1..];
        input := input + pieces[i];
        status := ServeNetpoll(env);
        if status != Open {
          input := input + Concat(pieces[i + 1..]);
          Together(done, Abs(), input, r.events, status);
          return;
        }
        AfterBoth(done, r.events, Feed(env, Abs(), input, pieces[i + 1..]));
        done := done + r.events;
      }
      assert pieces[|pieces|..] == [];
      FeedStep(env, Abs(), input, []);
      Together(done, Abs(), input, [], Open);
      return Open;
    }

    /** Lines 321-332: the frame is processed in the pool's buffer, which then goes back. */
    method PooledFrame(env: Env, h: Header, payload: Slice) returns (status: Status)
      requires Valid() && InBounds(payload) && payload.arr in pool.lent && payload.arr !in assembler.Held()
      requires |h.mask| == 4
      modifies this`events, this`active, assembler, pool, pool.known
      ensures Valid()
      ensures var r := Handle(env, old(Abs()), h, Unmasked(h, old(Content(payload))));
              events == old(events) + r.events && Abs() == r.asm && status == r.status != Panicked
      ensures active == (old(active) && h.op != OP_CLOSE)
      ensures pool.lent == old(pool.lent) - {payload.arr} - old(assembler.Held()) + assembler.Held()
      ensures assembler.Held() <= old(assembler.Held()) || assembler.Held() !! old(pool.lent)
      ensures old(pool.known) <= pool.known && fresh(pool.known - old(pool.known))
      ensures pool.dropped == old(pool.dropped)
      ensures Unchanged(old(pool.lent) - old(assembler.Held()) - {payload.arr})
    {
      hide pool.Valid, Handle, GrowthCost, IsCapacity, CapFor, BucketsOk, Unmasked;
      LentIsKnown(pool);
      HandleEnds(env, Abs(), h, Unmasked(h, payload.arr[..payload.len]));
      var ended := ProcessFrame(env, h, payload);
      assert payload.arr !in assembler.Held();
      pool.Put(payload);
      return if ended then Ended else Open;
    }

    /** Lines 302-332: the payload buffer is taken from the pool and put back on every way out. */
    method BufferedBody(env: Env, br: BufReader, h: Header) returns (status: Status)
      requires Valid() && h.length >= 0 && |h.mask| == 4
      modifies this`events, this`active, br, assembler, pool, pool.known
      ensures Valid()
      ensures h.length > |old(br.Unread())| ==>
                && br.Unread() == [] && events == old(events) + [Closed(Because(ShortRead))]
                && Abs() == old(Abs()) && status == Ended
      ensures h.length <= |old(br.Unread())| ==>
                var r := Handle(env, old(Abs()), h, Unmasked(h, old(br.Unread())[..h.length]));
                && br.Unread() == old(br.Unread())[h.length..] && events == old(events) + r.events
                && Abs() == r.asm && status == r.status && active == (old(active) && h.op != OP_CLOSE)
                && (h.op == OP_CLOSE ==> status == Ended)
      ensures status != Panicked && |br.later| <= |old(br.later)|
      ensures pool.lent == old(pool.lent) - old(assembler.Held()) + assembler.Held()
      ensures assembler.Held() <= old(assembler.Held()) || assembler.Held() !! old(pool.lent)
      ensures old(pool.known) <= pool.known && fresh(pool.known - old(pool.known))
      ensures pool.dropped == old(pool.dropped)
      ensures Unchanged(old(pool.lent) - old(assembler.Held()))
    {
      hide pool.Valid, Handle, GrowthCost, IsCapacity, CapFor, BucketsOk, Unmasked;
      LentIsKnown(pool);
      var payload := pool.Get(h.length);
      assert payload.arr !in assembler.Held();
      var ok := br.ReadFull(payload.arr, payload.len);
      assert Abs() == old(Abs());
      if !ok {
        pool.Put(payload);
        events := events + [Closed(Because(ShortRead))];
        return Ended;
      }
      ClosesIff(env, Abs(), h, Unmasked(h, payload.arr[..payload.len]));
      status := PooledFrame(env, h, payload);
    }

    /** Line 303 with a negative length: the buffer is out of its bucket when slicing it panics, and nobody puts it
        back. */
    method LoseBuffer()
      requires Valid()
      modifies pool
      ensures Valid() && Abs() == old(Abs()) && assembler.Held() == old(assembler.Held())
      ensures pool.lent == old(pool.lent) && pool.dropped == old(pool.dropped) + 1
      ensures old(pool.known) <= pool.known && fresh(pool.known - old(pool.known))
    {
      hide pool.Valid, GrowthCost, BucketsOk;
      var taken := pool.Get(0);
      pool.Drop(taken);
    }

    /** One pass of the loop on the buffered path. */
    method BufferedOnce(env: Env, br: BufReader) returns (status: Status)
      requires Valid() && |br.Unread()| >= 2
      modifies this`events, this`active, br, assembler, pool, pool.known
      ensures Valid()
      ensures var p := BufferedPass(env, old(Abs()), old(br.Unread()), br.EndError());
              && br.Unread() == old(br.Unread())[p.taken..] && events == old(events) + p.result.events
              && Abs() == p.result.asm && status == p.result.status
      ensures status == Open ==> active == old(active)
      ensures |br.later| <= |old(br.later)|
      ensures pool.lent == old(pool.lent) - old(assembler.Held()) + assembler.Held()
      ensures assembler.Held() <= old(assembler.Held()) || assembler.Held() !! old(pool.lent)
      ensures old(pool.known) <= pool.known && fresh(pool.known - old(pool.known))
      ensures pool.dropped == old(pool.dropped) + if status == Panicked then 1 else 0
      ensures Unchanged(old(pool.lent) - old(assembler.Held()))
    {
      hide pool.Valid, Handle, HeaderAt, GrowthCost, IsCapacity, CapFor;
      LentIsKnown(pool);
      ghost var all := br.Unread();
      var read := ReadHeaderZeroAlloc(br);
      if read.HeaderError? {
        events := events + [Closed(if read.error == Eof then Normal else Because(HeaderReadError(read.error)))];
        return Ended;
      }
      var h := read.h;
      if env.maxFrameSize > 0 && h.length > env.maxFrameSize {
        events := events + [Closed(Because(FrameTooLarge))];
        return Ended;
      }
      if h.length < 0 {
        LoseBuffer();
        return Panicked;
      }
      assert br.Unread()[..] == all[HeaderAt(all).size..];
      assert h.length <= |br.Unread()| ==>
          br.Unread()[..h.length] == all[HeaderAt(all).size..HeaderAt(all).size + h.length];
      status := BufferedBody(env, br, h);
    }

    /** One callback on the path with a bufio.Reader on a netpoll connection - how the engine calls ServeConn.  It
        works while two bytes are here, waiting inside a frame for the rest of it, and carries on the run of the
        machine on everything unread. */
    method ServeBuffered(env: Env, br: BufReader) returns (status: Status)
      requires Valid()
      modifies this`events, this`active, br, assembler, pool, pool.known
      ensures Valid() && |br.later| <= |old(br.later)|
      ensures !old(active) ==>
                && events == old(events) + [Closed(Normal)] && status == Ended && !active
                && br.here == old(br.here) && br.later == old(br.later)
      ensures old(active) ==>
                && old(events) <= events
                && var made := events[|old(events)|..];
                   BufferedDrain(env, old(Abs()), old(br.Unread()), br.EndError()) ==
                   if status == Open then After(made, BufferedDrain(env, Abs(), br.Unread(), br.EndError()))
                   else Run(Abs(), br.Unread(), made, status)
      ensures status == Open ==> active && |br.here| < 2
      ensures pool.lent == old(pool.lent) - old(assembler.Held()) + assembler.Held()
      ensures assembler.Held() <= old(assembler.Held()) || assembler.Held() !! old(pool.lent)
      ensures old(pool.known) <= pool.known && fresh(pool.known - old(pool.known))
      ensures pool.dropped == old(pool.dropped) + if status == Panicked then 1 else 0
      ensures Unchanged(old(pool.lent) - old(assembler.Held()))
    {
      hide pool.Valid, BufferedPass, BufferedDrain, After, GrowthCost, Concat;
      if !active {
        events := events + [Closed(Normal)];
        return Ended;
      }
      ghost var done: seq<Event> := [];
      ghost var run := BufferedDrain(env, Abs(), br.Unread(), br.EndError());
      AfterBoth([], [], run);
      while |br.here| >= 2
        invariant Valid() && active && |br.later| <= |old(br.later)|
        invariant events == old(events) + done
        invariant run == After(done, BufferedDrain(env, Abs(), br.Unread(), br.EndError()))
        invariant pool.lent == old(pool.lent) - old(assembler.Held()) + assembler.Held()
        invariant assembler.Held() <= old(assembler.Held()) || assembler.Held() !! old(pool.lent)
        invariant old(pool.known) <= pool.known && fresh(pool.known - old(pool.known))
        invariant pool.dropped == old(pool.dropped)
        invariant Unchanged(old(pool.lent) - old(assembler.Held()))
        decreases |br.Unread()|
      {
        ghost var pass := BufferedPass(env, Abs(), br.Unread(), br.EndError());
        BufferedStep(env, Abs(), br.Unread(), br.EndError());
        var once := BufferedOnce(env, br);
        AfterBoth(done, pass.result.events, BufferedDrain(env, Abs(), br.Unread(), br.EndError()));
        Together(done, Abs(), br.Unread(), pass.result.events, once);
        done := done + pass.result.events;
        if once != Open {
          return once;
        }
      }
      return Open;
    }

    /** Callbacks as the bytes arrive, for any split of the stream and with reads that wait for later pieces: the run
        of the machine on the whole stream.  The only pool buffer kept is the assembler's; one is lost exactly when
        the run panics. */
    method ServeBufferedArrivals(env: Env, br: BufReader) returns (status: Status)
      requires Valid() && active
      modifies this`events, this`active, br, assembler, pool, pool.known
      ensures Valid()
      ensures var r := BufferedDrain(env, old(Abs()), old(br.Unread()), br.EndError());
              events == old(events) + r.events && br.Unread() == r.rest && Abs() == r.asm && status == r.status
      ensures pool.lent == old(pool.lent) - old(assembler.Held()) + assembler.Held()
      ensures pool.dropped == old(pool.dropped) + if status == Panicked then 1 else 0
      ensures Unchanged(old(pool.lent) - old(assembler.Held()))
    {
      hide pool.Valid, BufferedDrain, After, GrowthCost, Concat;
      ghost var done: seq<Event> := [];
      ghost var run := BufferedDrain(env, Abs(), br.Unread(), br.EndError());
      AfterBoth([], [], run);
      while true
        invariant Valid() && active
        invariant events == old(events) + done
        invariant run == After(done, BufferedDrain(env, Abs(), br.Unread(), br.EndError()))
        invariant pool.lent == old(pool.lent) - old(assembler.Held()) + assembler.Held()
        invariant assembler.Held() <= old(assembler.Held()) || assembler.Held() !! old(pool.lent)
        invariant old(pool.known) <= pool.known && fresh(pool.known - old(pool.known))
        invariant pool.dropped == old(pool.dropped)
        invariant Unchanged(old(pool.lent) - old(assembler.Held()))
        decreases |br.later|
      {
        ghost var before := events;
        status := ServeBuffered(env, br);
        ghost var made := events[|before|..];
        assert events == old(events) + (done + made);
        AfterBoth(done, made, BufferedDrain(env, Abs(), br.Unread(), br.EndError()));
        Together(done, Abs(), br.Unread(), made, status);
        if status != Open {
          return;
        }
        done := done + made;
        if |br.later| == 0 {
          NothingLater(br.later);
          BufferedRest(env, Abs(), br.Unread(), br.EndError());
          Together(done, Abs(), br.Unread(), [], Open);
          return;
        }
        br.Arrive();
      }
    }
  }

  /** A pass in the terms of what is left after the header. */
  lemma PassIs(env: Env, a: Assembly, buf: seq<byte>)
    ensures |buf| < 2 || !HeaderAt(buf).Parsed? ==> NetpollPass(env, a, buf) == Wait
    ensures |buf| >= 2 && HeaderAt(buf).Parsed? ==>
              var h, n := HeaderAt(buf).h, HeaderAt(buf).size;
              var len := if h.length > 0 then h.length else 0;
              && (|buf| < WrapAdd(n, h.length) ==> NetpollPass(env, a, buf) == Wait)
              && (|buf| >= WrapAdd(n, h.length) ==>
                    && NetpollPass(env, a, buf) ==
                         (if env.maxFrameSize > 0 && h.length > env.maxFrameSize then
                            Took(n, Handled(a, [Closed(Because(FrameTooLarge))], Ended))
                          else if h.length > |buf| - n then Took(n, Handled(a, [Closed(Because(ShortRead))], Ended))
                          else Took(n + len, Handle(env, a, h, Unmasked(h, buf[n..][..len]))))
                    && (h.length <= |buf| - n ==> buf[n..][len..] == buf[n + len..])
                    && (h.length <= |buf| - n ==>
                          var r := Handle(env, a, h, Unmasked(h, buf[n..][..len]));
                          (Closed(Normal) in r.events <==> h.op == OP_CLOSE)
                          && (Closed(Normal) in r.events ==> r.status != Open)))
  {
    hide HeaderAt, Handle, Unmasked;
    if |buf| >= 2 && HeaderAt(buf).Parsed? {
      var h, n := HeaderAt(buf).h, HeaderAt(buf).size;
      var len := if h.length > 0 then h.length else 0;
      if h.length <= |buf| - n {
        assert buf[n..][..len] == buf[n..n + len] && buf[n..][len..] == buf[n + len..];
        ClosesIff(env, a, h, Unmasked(h, buf[n..][..len]));
      }
    }
  }

  lemma FeedStep(env: Env, a: Assembly, buf: seq<byte>, pieces: seq<seq<byte>>)
    ensures pieces == [] ==> Feed(env, a, buf, pieces) == Run(a, buf, [], Open)
    ensures pieces != [] ==>
              var r := Drain(env, a, buf + pieces[0]);
              && Feed(env, a, buf, pieces) ==
                   (if r.status == Open then After(r.events, Feed(env, r.asm, r.rest, pieces[1..]))
                                               else r.(rest := r.rest + Concat(pieces[1..])))
              && (r.status == Open ==> Closed(Normal) !in r.events)
              && |r.rest + Concat(pieces[1..])| <= |buf + Concat(pieces)|
              && Concat(pieces) == pieces[0] + Concat(pieces[1..])
  {
    hide Drain;
    if pieces != [] {
      OpenIsActive(env, a, buf + pieces[0]);
    }
  }

  lemma {:induction false} OpenIsActive(env: Env, a: Assembly, buf: seq<byte>)
    ensures var r := Drain(env, a, buf); |r.rest| <= |buf| && (r.status == Open ==> Closed(Normal) !in r.events)
    decreases |buf|
  {
    hide Handle, HeaderAt;
    var p := NetpollPass(env, a, buf);
    if p.Took? && p.result.status == Open {
      OpenIsActive(env, p.result.asm, buf[p.taken..]);
      OpenPass(env, a, buf);
    }
  }

  lemma OpenPass(env: Env, a: Assembly, buf: seq<byte>)
    requires NetpollPass(env, a, buf).Took? && NetpollPass(env, a, buf).result.status == Open
    ensures Closed(Normal) !in NetpollPass(env, a, buf).result.events
  {
    hide HeaderAt;
  }

  lemma Together(done: seq<Event>, a: Assembly, rest: seq<byte>, events: seq<Event>, status: Status)
    ensures After(done, Run(a, rest, events, status)) == Run(a, rest, done + events, status)
    ensures done + [] == done
  {
  }

  lemma BufferedRest(env: Env, a: Assembly, stream: seq<byte>, endError: ReadError)
    requires |stream| < 2
    ensures BufferedDrain(env, a, stream, endError) == Run(a, stream, [], Open)
  {
  }

  /** OnClose without an error comes from a close frame, which also closes the connection. */
  lemma ClosesIff(env: Env, a: Assembly, h: Header, payload: seq<byte>)
    ensures var r := Handle(env, a, h, payload);
            && (Closed(Normal) in r.events <==> h.op == OP_CLOSE)
            && (h.op == OP_CLOSE ==> r.status == Ended)
  {
  }

  lemma HandleEnds(env: Env, a: Assembly, h: Header, payload: seq<byte>)
    ensures Handle(env, a, h, payload).status != Panicked
  {
  }

  lemma BufferedStep(env: Env, a: Assembly, stream: seq<byte>, endError: ReadError)
    requires |stream| >= 2
    ensures var p := BufferedPass(env, a, stream, endError);
            BufferedDrain(env, a, stream, endError) ==
            if p.result.status == Open
            then After(p.result.events, BufferedDrain(env, p.result.asm, stream[p.taken..], endError))
            else Run(p.result.asm, stream[p.taken..], p.result.events, p.result.status)
  {
  }

  lemma PassEnds(env: Env, a: Assembly, buf: seq<byte>)
    ensures NetpollPass(env, a, buf).Took? ==> NetpollPass(env, a, buf).result.status != Panicked
  {
  }
}
