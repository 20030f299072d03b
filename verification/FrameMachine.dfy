/** What a stream of frames means: the state an Assembler stands for, the callbacks each frame causes, and
    the loop of ServeConn on both transports (pkg/websocket/websocket.go, pkg/websocket/assembler.go). */
module FrameMachine {
  import opened Bytes
  import opened WsHeader
  import opened Masking

  /** What an inflater delivers for its input: bytes, and whether the stream then ends cleanly. */
  datatype Inflated = Inflated(data: seq<byte>, clean: bool)

  /** The configuration, and DEFLATE as a function of the compressed bytes. */
  datatype Env = Env(maxFrameSize: int, compression: bool, inflate: seq<byte> -> Inflated)

  datatype WsError =
    | UnexpectedContinuation | ExpectedContinuation | MessageTooLarge
    | DecompressedTooLarge | CorruptStream
    | FrameTooLarge | ShortRead | HeaderReadError(error: ReadError)

  /** OnClose's argument: nil or an error. */
  datatype CloseReason = Normal | Because(error: WsError)

  /** The callbacks, and the pong that is written in reply to a ping. */
  datatype Event =
    | Message(op: int, data: seq<byte>)
    | Ping(payload: seq<byte>) | PongReply(payload: seq<byte>) | Pong(payload: seq<byte>)
    | Closed(reason: CloseReason)

  /** The Assembler's `buffer`: nil, or the message so far under the first frame's settings. */
  datatype Assembly = Idle | Partial(data: seq<byte>, compressed: bool, op: int)

  datatype Delivery = Nothing | Deliver(op: int, data: seq<byte>) | Fault(error: WsError)

  /** The bytes appended to every compressed payload before it is inflated. */
  const SYNC_TAIL: seq<byte> := [0x00, 0x00, 0xff, 0xff]

  /** DecompressData. */
  function Decompress(env: Env, op: int, payload: seq<byte>): Delivery
  {
    var s := env.inflate(payload + SYNC_TAIL);
    if env.maxFrameSize > 0 && |s.data| > env.maxFrameSize then Fault(DecompressedTooLarge)
    else if s.clean then Deliver(op, s.data)
    else Fault(CorruptStream)
  }

  /** Assembler.ProcessFrame. */
  function Assemble(env: Env, a: Assembly, h: Header, payload: seq<byte>): (Assembly, Delivery)
  {
    match a
    case Idle =>
      var compressed := h.rsv == 4 && env.compression;
      if h.op == OP_CONTINUATION then (Idle, Fault(UnexpectedContinuation))
      else if !h.fin then (Partial(payload, compressed, h.op), Nothing)
      else (Idle, if compressed then Decompress(env, h.op, payload) else Deliver(h.op, payload))
    case Partial(data, compressed, op) =>
      if h.op != OP_CONTINUATION then (Idle, Fault(ExpectedContinuation))
      else if env.maxFrameSize > 0 && |data| + |payload| > env.maxFrameSize then (Idle, Fault(MessageTooLarge))
      else if !h.fin then (Partial(data + payload, compressed, op), Nothing)
      else (Idle, if compressed then Decompress(env, op, data + payload) else Deliver(op, data + payload))
  }

  datatype Status = Open | Ended | Panicked

  datatype Handled = Handled(asm: Assembly, events: seq<Event>, status: Status)

  /** processFrame, on an unmasked payload. */
  function Handle(env: Env, a: Assembly, h: Header, payload: seq<byte>): Handled
  {
    if IsControl(h.op) then
      if h.op == OP_CLOSE then Handled(a, [Closed(Normal)], Ended)
      else if h.op == OP_PING then Handled(a, [Ping(payload), PongReply(payload)], Open)
      else if h.op == OP_PONG then Handled(a, [Pong(payload)], Open)
      else Handled(a, [], Open)
    else
      var (asm, delivery) := Assemble(env, a, h, payload);
      match delivery
      case Fault(e) => Handled(asm, [Closed(Because(e))], Ended)
      case Deliver(op, data) => Handled(asm, [Message(op, data)], Open)
      case Nothing => Handled(asm, [], Open)
  }

  function Unmasked(h: Header, wire: seq<byte>): (p: seq<byte>)
    requires |h.mask| == 4
    ensures |p| == |wire|
  {
    if h.masked then Cipher(wire, h.mask) else wire
  }

  // ----- the netpoll path (no bufio.Reader)

  /** One pass of the loop: return and wait, or take bytes off the connection. */
  datatype Pass = Wait | Took(taken: nat, result: Handled)

  function NetpollPass(env: Env, a: Assembly, buf: seq<byte>): (p: Pass)
    ensures p.Took? ==> 2 <= p.taken <= |buf|
  {
    if |buf| < 2 then Wait
    else
      match HeaderAt(buf)
      case NeedMore => Wait
      case BadControl => Wait // the error is dropped: headerBytes is 0
      case Parsed(h, n) =>
        if |buf| < WrapAdd(n, h.length) then Wait
        else if env.maxFrameSize > 0 && h.length > env.maxFrameSize then
          Took(n, Handled(a, [Closed(Because(FrameTooLarge))], Ended))
        else if h.length > |buf| - n then
          Took(n, Handled(a, [Closed(Because(ShortRead))], Ended)) // Next comes up short
        else
          var len := if h.length > 0 then h.length else 0; // Next(n) of n <= 0 is empty
          Took(n + len, Handle(env, a, h, Unmasked(h, buf[n..n + len])))
  }

  /** Everything the loop does with what is available. */
  datatype Run = Run(asm: Assembly, rest: seq<byte>, events: seq<Event>, status: Status)

  function After(events: seq<Event>, r: Run): Run
  {
    r.(events := events + r.events)
  }

  lemma AfterBoth(first: seq<Event>, second: seq<Event>, r: Run)
    ensures After(first, After(second, r)) == After(first + second, r)
    ensures After([], r) == r
  {
    assert first + (second + r.events) == (first + second) + r.events;
  }

  function Drain(env: Env, a: Assembly, buf: seq<byte>): Run
    decreases |buf|
  {
    match NetpollPass(env, a, buf)
    case Wait => Run(a, buf, [], Open)
    case Took(n, result) =>
      if result.status == Open then After(result.events, Drain(env, result.asm, buf[n..]))
      else Run(result.asm, buf[n..], result.events, result.status)
  }

  /** The callback runs again whenever more bytes have arrived, until the connection is closed. */
  function Feed(env: Env, a: Assembly, buf: seq<byte>, pieces: seq<seq<byte>>): Run
    decreases |pieces|
  {
    if pieces == [] then Run(a, buf, [], Open)
    else
      var r := Drain(env, a, buf + pieces[0]);
      if r.status == Open then After(r.events, Feed(env, r.asm, r.rest, pieces[1..]))
      else r.(rest := r.rest + Concat(pieces[1..]))
  }

  // ----- the buffered path, as the engine runs it: a bufio.Reader over a netpoll connection

  function BufferedPass(env: Env, a: Assembly, stream: seq<byte>, endError: ReadError): (p: Pass)
    requires |stream| >= 2
    ensures p.Took? ==> p.taken <= |stream| && (p.result.status == Open ==> 2 <= p.taken)
    ensures p.Took?
  {
    match HeaderReadAt(stream, endError)
    case HeaderError(e) =>
      Took(0, Handled(a, [Closed(if e == Eof then Normal else Because(HeaderReadError(e)))], Ended))
    case Got(h) =>
      var n := HeaderAt(stream).size;
      if env.maxFrameSize > 0 && h.length > env.maxFrameSize then
        Took(n, Handled(a, [Closed(Because(FrameTooLarge))], Ended))
      else if h.length < 0 then
        Took(n, Handled(a, [], Panicked)) // slicing a pool buffer with a negative length
      else if h.length > |stream| - n then
        Took(|stream|, Handled(a, [Closed(Because(ShortRead))], Ended))
      else
        Took(n + h.length, Handle(env, a, h, Unmasked(h, stream[n..n + h.length])))
  }

  function BufferedDrain(env: Env, a: Assembly, stream: seq<byte>, endError: ReadError): Run
    decreases |stream|
  {
    if |stream| < 2 then Run(a, stream, [], Open)
    else
      var p := BufferedPass(env, a, stream, endError);
      if p.result.status == Open then
        After(p.result.events, BufferedDrain(env, p.result.asm, stream[p.taken..], endError))
      else Run(p.result.asm, stream[p.taken..], p.result.events, p.result.status)
  }
}
