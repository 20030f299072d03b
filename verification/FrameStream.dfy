/** Properties of every byte stream: resumption, the two transports, the frame size limit. */
module FrameStream {
  import opened Bytes
  import opened WsHeader
  import opened Masking
  import opened FrameMachine

  // ----- resumption

  /** A pass that takes bytes does the same when more have arrived.  (Lengths are Go ints, so a buffer holds
      at most MAX_INT bytes.) */
  lemma PassExtends(env: Env, a: Assembly, buf: seq<byte>, more: seq<byte>)
    requires NetpollPass(env, a, buf).Took? && |buf + more| <= MAX_INT
    ensures NetpollPass(env, a, buf + more) == NetpollPass(env, a, buf)
  {
    hide Handle, HeaderAt, Cipher;
    HeaderIsLocal(buf, buf + more);
    var h, n := HeaderAt(buf).h, HeaderAt(buf).size;
    if 0 < h.length <= |buf| - n {
      assert buf[n..n + h.length] == (buf + more)[n..n + h.length];
    } else {
      assert buf[n..n + 0] == (buf + more)[n..n + 0];
    }
  }

  lemma DrainOnce(env: Env, a: Assembly, buf: seq<byte>)
    ensures var p := NetpollPass(env, a, buf);
            Drain(env, a, buf) ==
            if p.Wait? then Run(a, buf, [], Open)
            else if p.result.status == Open then After(p.result.events, Drain(env, p.result.asm, buf[p.taken..]))
            else Run(p.result.asm, buf[p.taken..], p.result.events, p.result.status)
  {
    hide NetpollPass;
  }

  /** Waiting consumes nothing, and what was consumed stays consumed: bytes that arrive later only continue
      the work. */
  lemma {:induction false} DrainExtends(env: Env, a: Assembly, buf: seq<byte>, more: seq<byte>)
    requires |buf + more| <= MAX_INT
    ensures var r := Drain(env, a, buf);
            Drain(env, a, buf + more) ==
            if r.status == Open then After(r.events, Drain(env, r.asm, r.rest + more))
            else r.(rest := r.rest + more)
    decreases |buf|
  {
    hide NetpollPass, Drain;
    var p := NetpollPass(env, a, buf);
    DrainOnce(env, a, buf);
    if p.Took? {
      PassExtends(env, a, buf, more);
      DrainOnce(env, a, buf + more);
      assert (buf + more)[p.taken..] == buf[p.taken..] + more;
      if p.result.status == Open {
        DrainExtends(env, p.result.asm, buf[p.taken..], more);
        var r := Drain(env, p.result.asm, buf[p.taken..]);
        AfterBoth(p.result.events, r.events, Drain(env, r.asm, r.rest + more));
      }
    } else {
      AfterBoth([], [], Drain(env, a, buf + more));
    }
  }

  /** However the bytes are cut up on arrival, the callbacks, the bytes left over and the state are those of
      one delivery of them all. */
  lemma {:induction false} AnySplitIsOneShot(env: Env, a: Assembly, buf: seq<byte>, pieces: seq<seq<byte>>)
    requires |buf + Concat(pieces)| <= MAX_INT && Drain(env, a, buf) == Run(a, buf, [], Open)
    ensures Feed(env, a, buf, pieces) == Drain(env, a, buf + Concat(pieces))
    decreases |pieces|
  {
    hide NetpollPass, Drain;
    if pieces == [] {
      assert buf + Concat(pieces) == buf;
    } else {
      var first, later := buf + pieces[0], Concat(pieces[1..]);
      assert buf + Concat(pieces) == first + later;
      var r := Drain(env, a, first);
      DrainExtends(env, a, first, later);
      DrainRests(env, a, first);
      if r.status == Open {
        AnySplitIsOneShot(env, r.asm, r.rest, pieces[1..]);
      }
    }
  }

  /** When the loop returns with the connection open, what it left cannot be worked on yet. */
  lemma {:induction false} DrainRests(env: Env, a: Assembly, buf: seq<byte>)
    ensures var r := Drain(env, a, buf);
            |r.rest| <= |buf| && (r.status == Open ==> Drain(env, r.asm, r.rest) == Run(r.asm, r.rest, [], Open))
    decreases |buf|
  {
    var p := NetpollPass(env, a, buf);
    if p.Took? && p.result.status == Open {
      DrainRests(env, p.result.asm, buf[p.taken..]);
    }
  }

  // ----- two transports

  /** The stream is a sequence of whole frames with no oversized control frame. */
  ghost predicate WholeFrames(stream: seq<byte>)
    decreases |stream|
  {
    stream == [] ||
    (match HeaderAt(stream)
     case Parsed(h, n) => 0 <= h.length <= |stream| - n && WholeFrames(stream[n + h.length..])
     case _ => false)
  }

  /** On whole frames both paths of ServeConn make the same callbacks with the same payloads, end in the same
      state and leave the same bytes. */
  lemma {:induction false} TransportsAgree(env: Env, a: Assembly, stream: seq<byte>, endError: ReadError)
    requires WholeFrames(stream) && |stream| <= MAX_INT
    ensures BufferedDrain(env, a, stream, endError) == Drain(env, a, stream)
    decreases |stream|
  {
    hide Handle, HeaderAt, Cipher;
    if stream != [] {
      var h, n := HeaderAt(stream).h, HeaderAt(stream).size;
      assert |stream| >= 2;
      var p := NetpollPass(env, a, stream);
      assert h.length == 0 ==> stream[n..n + h.length] == stream[n..n + 0];
      assert BufferedPass(env, a, stream, endError) == p;
      if p.result.status == Open {
        TransportsAgree(env, p.result.asm, stream[p.taken..], endError);
      }
    }
  }

  // ----- the size limit

  ghost predicate Within(limit: int, a: Assembly)
  {
    a.Partial? ==> |a.data| <= limit
  }

  ghost predicate EventsWithin(limit: int, events: seq<Event>)
  {
    forall i :: 0 <= i < |events| ==> (events[i].Message? ==> |events[i].data| <= limit)
  }

  lemma HandleWithin(env: Env, a: Assembly, h: Header, payload: seq<byte>)
    requires env.maxFrameSize > 0 && Within(env.maxFrameSize, a) && |payload| <= env.maxFrameSize
    ensures Within(env.maxFrameSize, Handle(env, a, h, payload).asm)
    ensures EventsWithin(env.maxFrameSize, Handle(env, a, h, payload).events)
  {
  }

  /** With a positive MaxFrameSize, over every stream, no delivered message and no partly assembled one
      is longer - single, fragmented, compressed, or both. */
  lemma {:induction false} NothingExceedsTheLimit(env: Env, a: Assembly, buf: seq<byte>)
    requires env.maxFrameSize > 0 && Within(env.maxFrameSize, a)
    ensures Within(env.maxFrameSize, Drain(env, a, buf).asm)
    ensures EventsWithin(env.maxFrameSize, Drain(env, a, buf).events)
    decreases |buf|
  {
    hide Handle, HeaderAt, Cipher, Within;
    var p := NetpollPass(env, a, buf);
    if p.Took? {
      var h, n := HeaderAt(buf).h, HeaderAt(buf).size;
      if h.length <= env.maxFrameSize && h.length <= |buf| - n {
        HandleWithin(env, a, h, Unmasked(h, buf[n..p.taken]));
      }
      if p.result.status == Open {
        NothingExceedsTheLimit(env, p.result.asm, buf[p.taken..]);
      }
    }
  }

  /** The same on the path with a bufio.Reader, which is the one Upgrade installs. */
  lemma {:induction false} NothingBufferedExceedsTheLimit(env: Env, a: Assembly, stream: seq<byte>, endError: ReadError)
    requires env.maxFrameSize > 0 && Within(env.maxFrameSize, a)
    ensures Within(env.maxFrameSize, BufferedDrain(env, a, stream, endError).asm)
    ensures EventsWithin(env.maxFrameSize, BufferedDrain(env, a, stream, endError).events)
    decreases |stream|
  {
    hide Handle, HeaderAt, Cipher, Within;
    if |stream| >= 2 {
      var p := BufferedPass(env, a, stream, endError);
      if HeaderReadAt(stream, endError).Got? {
        var h, n := HeaderAt(stream).h, HeaderAt(stream).size;
        if 0 <= h.length <= env.maxFrameSize && h.length <= |stream| - n {
          HandleWithin(env, a, h, Unmasked(h, stream[n..n + h.length]));
        }
      }
      if p.result.status == Open {
        NothingBufferedExceedsTheLimit(env, p.result.asm, stream[p.taken..], endError);
      }
    }
  }
}
