/** Frames that make a path of ServeConn wait for ever, come up short or panic - for each the exact condition, over
    every stream, and a concrete frame - and what of section 5 of RFC 6455 is not checked at all. */
module BadFrames {
  import opened Bytes
  import opened WsHeader
  import opened Masking
  import opened FrameMachine
  import opened FrameStream

  // ----- waiting for ever

  function Zeros(n: nat): (s: seq<byte>)
    ensures |s| == n && forall i :: 0 <= i < n ==> s[i] == 0
  {
    seq(n, _ => 0)
  }

  /** A header that is not there yet is completed by zero bytes. */
  lemma HeaderCanFinish(buf: seq<byte>) returns (more: seq<byte>)
    requires HeaderAt(buf) != BadControl
    ensures HeaderAt(buf + more).Parsed?
  {
    if |buf| < 2 {
      more := Zeros(14);
    } else if HeaderAt(buf) == NeedMore {
      more := Zeros(HeaderSize(buf[1]));
    } else {
      more := [];
      assert buf + more == buf;
    }
  }

  lemma CanMove(env: Env, a: Assembly, buf: seq<byte>) returns (more: seq<byte>)
    requires HeaderAt(buf) != BadControl
    ensures NetpollPass(env, a, buf + more).Took?
  {
    hide HeaderAt, Handle, Cipher;
    var start := HeaderCanFinish(buf);
    var d := buf + start;
    var n, length := HeaderAt(d).size, HeaderAt(d).h.length;
    var short := WrapAdd(n, length) - |d|;
    var rest := if short > 0 then Zeros(short) else [];
    more := start + rest;
    assert buf + more == d + rest;
    HeaderIsLocal(d, d + rest);
  }

  /** The netpoll path waits, whatever arrives, exactly when the header is an oversized control frame's: it consumes
      nothing and makes no callback. */
  lemma WaitsForEverIff(env: Env, a: Assembly, buf: seq<byte>)
    ensures (forall more: seq<byte> :: NetpollPass(env, a, buf + more) == Wait) <==> HeaderAt(buf) == BadControl
    ensures (forall more: seq<byte> :: Drain(env, a, buf + more) == Run(a, buf + more, [], Open))
       <==> HeaderAt(buf) == BadControl
  {
    hide HeaderAt, NetpollPass, Drain;
    if HeaderAt(buf) == BadControl {
      forall more: seq<byte>
        ensures NetpollPass(env, a, buf + more) == Wait && Drain(env, a, buf + more) == Run(a, buf + more, [], Open)
      {
        OversizedControlWaits(env, a, buf, more);
      }
    } else {
      var more := CanMove(env, a, buf);
      TakingIsProgress(env, a, buf + more);
    }
  }

  lemma OversizedControlWaits(env: Env, a: Assembly, buf: seq<byte>, more: seq<byte>)
    requires HeaderAt(buf) == BadControl
    ensures NetpollPass(env, a, buf + more) == Wait && Drain(env, a, buf + more) == Run(a, buf + more, [], Open)
  {
    HeaderIsLocal(buf, buf + more);
  }

  lemma TakingIsProgress(env: Env, a: Assembly, buf: seq<byte>)
    requires NetpollPass(env, a, buf).Took?
    ensures |Drain(env, a, buf).rest| < |buf|
  {
    hide NetpollPass, Drain;
    DrainOnce(env, a, buf);
    var p := NetpollPass(env, a, buf);
    DrainRests(env, p.result.asm, buf[p.taken..]);
  }

  /** The buffered path closes the connection on it, once the rest of the header is there. */
  lemma OversizedControlCloses(env: Env, a: Assembly, stream: seq<byte>, endError: ReadError)
    requires HeaderAt(stream) == BadControl && (endError == Eof || endError == ReadFailed)
    ensures BufferedDrain(env, a, stream, endError).status == Ended
    ensures BufferedDrain(env, a, stream, endError).events == [Closed(Because(HeaderReadError(ControlTooLong)))]
       <==> HeaderSize(stream[1]) <= |stream|
    ensures BufferedDrain(env, a, stream, endError).rest == stream
  {
    assert stream[0..] == stream;
  }

  /** A ping whose length code announces 126 bytes or more. */
  const OVERSIZED_PING: seq<byte> := [137, 126]

  lemma OversizedPingExample(env: Env, a: Assembly, more: seq<byte>)
    ensures Drain(env, a, OVERSIZED_PING + more) == Run(a, OVERSIZED_PING + more, [], Open)
  {
    hide Drain, NetpollPass;
    assert HeaderAt(OVERSIZED_PING) == BadControl;
    OversizedControlWaits(env, a, OVERSIZED_PING, more);
  }

  // ----- a short Next

  /** Next comes up short exactly when the sum of header and payload size wraps and no limit stops the frame
      before. */
  lemma NextIsShortIff(env: Env, a: Assembly, buf: seq<byte>)
    requires HeaderAt(buf).Parsed? && |buf| <= MAX_INT
    ensures NetpollPass(env, a, buf) == Took(HeaderAt(buf).size, Handled(a, [Closed(Because(ShortRead))], Ended))
       <==> HeaderAt(buf).size + HeaderAt(buf).h.length > MAX_INT
            && !(env.maxFrameSize > 0 && HeaderAt(buf).h.length > env.maxFrameSize)
  {
    LengthIsInt64(buf);
    hide HeaderAt, Cipher;
  }

  const LONGEST := Header(true, 0, OP_BINARY, false, MAX_INT, NO_MASK)

  /** Without a limit, the header of the longest frame alone closes the connection. */
  lemma ShortNextExample(env: Env, a: Assembly)
    requires env.maxFrameSize <= 0
    ensures NetpollPass(env, a, EncodeHeader(LONGEST)) == Took(10, Handled(a, [Closed(Because(ShortRead))], Ended))
  {
    hide HeaderAt, NetpollPass, BytesOf;
    var buf := EncodeHeader(LONGEST);
    HeaderRoundTrip(LONGEST, []);
    assert buf + [] == buf && |buf| == 10;
    NextIsShortIff(env, a, buf);
  }

  // ----- a length that is not in the shortest form

  /** Five bytes announced in the two-byte form. */
  const NOT_MINIMAL: seq<byte> := [130, 126, 0, 5]

  lemma NotMinimalExample()
    ensures HeaderAt(NOT_MINIMAL) == Parsed(Header(true, 0, OP_BINARY, false, 5, NO_MASK), 4)
    ensures EncodeHeader(HeaderAt(NOT_MINIMAL).h) != NOT_MINIMAL
  {
    assert NOT_MINIMAL[2..4] == [0, 5];
    var low: seq<byte> := [0, 5];
    assert low[..1] == [0] && low[..1][..0] == [];
    assert BigEndian(low[..1]) == 0;
    assert BigEndian(low) == 5;
  }

  // ----- a length with the top bit set

  /** Whole frames that leave the connection open, and then a header whose length is negative as an int64. */
  ghost predicate NegativeAt(env: Env, a: Assembly, stream: seq<byte>, k: nat)
  {
    && k <= |stream|
    && Drain(env, a, stream[..k]).status == Open && Drain(env, a, stream[..k]).rest == []
    && HeaderAt(stream[k..]).Parsed? && HeaderAt(stream[k..]).h.length < 0
  }

  /** The buffered path panics, without an OnClose, exactly on such a stream.  (The netpoll path takes the frame as
      an empty one.) */
  lemma PanicsIff(env: Env, a: Assembly, stream: seq<byte>, endError: ReadError)
    requires |stream| <= MAX_INT
    ensures BufferedDrain(env, a, stream, endError).status == Panicked
       <==> exists k: nat :: NegativeAt(env, a, stream, k)
  {
    hide BufferedDrain, NegativeAt;
    if BufferedDrain(env, a, stream, endError).status == Panicked {
      var k := PanicIsAhead(env, a, stream, endError);
    }
    if k: nat :| NegativeAt(env, a, stream, k) {
      NegativePanics(env, a, stream, k, endError);
    }
  }

  /** The netpoll path takes such a frame as an empty one, and the bytes after its header as the next frame. */
  lemma NegativeIsEmpty(env: Env, a: Assembly, buf: seq<byte>)
    requires HeaderAt(buf).Parsed? && HeaderAt(buf).h.length < 0
    ensures NetpollPass(env, a, buf) == Took(HeaderAt(buf).size, Handle(env, a, HeaderAt(buf).h, []))
  {
    hide HeaderAt, Handle;
    var h, n := HeaderAt(buf).h, HeaderAt(buf).size;
    assert buf[n..n] == [];
    assert Unmasked(h, []) == [];
  }

  /** On a frame of a length that is not negative both paths do the same, however much more the buffered one sees. */
  lemma SamePass(env: Env, a: Assembly, stream: seq<byte>, k: nat, endError: ReadError)
    requires k <= |stream| <= MAX_INT && HeaderAt(stream[..k]).Parsed? && HeaderAt(stream[..k]).h.length >= 0
    requires HeaderAt(stream[..k]).size + HeaderAt(stream[..k]).h.length <= k
    ensures NetpollPass(env, a, stream[..k]) == BufferedPass(env, a, stream, endError)
  {
    hide HeaderAt, Handle, Cipher;
    var d := stream[..k];
    HeaderIsLocal(d, stream);
    var h, n := HeaderAt(d).h, HeaderAt(d).size;
    assert h.length == 0 ==> d[n..n] == stream[n..n];
    assert d[n..n + h.length] == stream[n..n + h.length];
  }

  lemma {:induction false} NegativePanics(env: Env, a: Assembly, stream: seq<byte>, k: nat, endError: ReadError)
    requires |stream| <= MAX_INT && NegativeAt(env, a, stream, k)
    ensures BufferedDrain(env, a, stream, endError).status == Panicked
    decreases |stream|
  {
    hide HeaderAt, Handle, Cipher, Drain;
    var d := stream[..k];
    DrainOnce(env, a, d);
    if k == 0 {
      assert stream[k..] == stream;
    } else {
      var p := NetpollPass(env, a, d);
      HeaderIsLocal(d, stream);
      if HeaderAt(d).h.length >= 0 {
        SamePass(env, a, stream, k, endError);
        var rest := stream[p.taken..];
        assert d[p.taken..] == rest[..k - p.taken] && stream[k..] == rest[k - p.taken..];
        NegativePanics(env, p.result.asm, rest, k - p.taken, endError);
      }
    }
  }

  lemma {:induction false} PanicIsAhead(env: Env, a: Assembly, stream: seq<byte>, endError: ReadError) returns (k: nat)
    requires |stream| <= MAX_INT && BufferedDrain(env, a, stream, endError).status == Panicked
    ensures NegativeAt(env, a, stream, k)
    decreases |stream|
  {
    hide HeaderAt, Handle, Cipher, Drain;
    var p := BufferedPass(env, a, stream, endError);
    if p.result.status == Open {
      var rest := stream[p.taken..];
      var k' := PanicIsAhead(env, p.result.asm, rest, endError);
      k := p.taken + k';
      var d := stream[..k];
      HeaderIsLocal(stream, d);
      SamePass(env, a, stream, k, endError);
      DrainOnce(env, a, d);
      assert d[p.taken..] == rest[..k'] && stream[k..] == rest[k'..];
    } else {
      k := 0;
      HandleNeverPanics(env, a, stream, endError);
      assert stream[..0] == [] && stream[0..] == stream;
      DrainOnce(env, a, []);
    }
  }

  lemma HandleNeverPanics(env: Env, a: Assembly, stream: seq<byte>, endError: ReadError)
    requires |stream| >= 2 && BufferedPass(env, a, stream, endError).result.status == Panicked
    ensures HeaderAt(stream).Parsed? && HeaderAt(stream).h.length < 0
  {
    hide HeaderAt, Cipher;
  }

  /** A binary frame announcing 2^63 bytes. */
  function TopBitFrame(): seq<byte>
  {
    [130, 127] + BytesOf(0x8000_0000_0000_0000, 8)
  }

  lemma TopBitExample(env: Env, a: Assembly, endError: ReadError)
    ensures BufferedDrain(env, a, TopBitFrame(), endError) == Run(a, [], [], Panicked)
  {
    hide BytesOf, BigEndian, Handle;
    Powers();
    BigEndianRoundTrip(0x8000_0000_0000_0000, 8);
    var s := TopBitFrame();
    assert s[2..10] == BytesOf(0x8000_0000_0000_0000, 8);
    assert HeaderAt(s).Parsed? && HeaderAt(s).size == 10 && HeaderAt(s).h.length < 0;
    assert s[10..] == [];
  }

  // ----- what is not checked

  /** Beyond the opcode, a control frame's header makes no difference; of another frame's header only FIN and whether
      its reserved bits are exactly RSV1.  So reserved bits, fragmented control frames and unmasked frames of clients
      are all accepted. */
  lemma HeaderBitsIgnored(env: Env, a: Assembly, h: Header, h': Header, payload: seq<byte>)
    requires h'.op == h.op
    requires IsControl(h.op) || (h'.fin == h.fin && (h'.rsv == 4 <==> h.rsv == 4))
    ensures Handle(env, a, h', payload) == Handle(env, a, h, payload)
  {
  }

  /** Reserved control opcodes are dropped; a reserved data opcode is delivered like a message. */
  lemma ReservedOpcodes(env: Env, a: Assembly, h: Header, payload: seq<byte>)
    ensures 11 <= h.op < 16 ==> Handle(env, a, h, payload) == Handled(a, [], Open)
    ensures 3 <= h.op < 8 && h.fin && h.rsv != 4 ==>
              Handle(env, Idle, h, payload) == Handled(Idle, [Message(h.op, payload)], Open)
  {
  }
}
