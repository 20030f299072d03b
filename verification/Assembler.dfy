/** The Assembler of pkg/websocket/assembler.go, with its pooled buffer. */
module Assemblers {
  import opened Wrappers
  import opened Bytes
  import opened WsHeader
  import opened FrameMachine
  import opened BufferPool
  import opened Compression

  /** ProcessFrame's result: nothing yet, a message in a slice - the caller's payload, or a buffer of the pool
      that the caller must put back (isReassembled) - or an error. */
  datatype Outcome = NoMessage | Whole(op: int, s: Slice, isReassembled: bool) | Failure(error: WsError)

  class Assembler {
    var buffer: Option<Slice>
    var isCompressed: bool
    var lastOpCode: int
    ghost var start: nat   // the size first asked for
    ghost var moved: nat   // bytes copied by growing the present buffer

    /** The buffer, when there is one, is lent, and growing it has been cheap. */
    ghost predicate Valid(pool: Pool)
      reads this, pool
    {
      buffer.Some? ==>
        && buffer.value.arr in pool.lent && InBounds(buffer.value)
        && GrowthCost(start, buffer.value.arr.Length, buffer.value.len, moved)
    }

    /** The array the assembler holds. */
    ghost function Held(): set<array<byte>>
      reads this
    {
      if buffer.Some? then {buffer.value.arr} else {}
    }

    /** What the fields stand for. */
    ghost function Abs(): Assembly
      requires buffer.Some? ==> InBounds(buffer.value)
      reads this, if buffer.Some? then {buffer.value.arr} else {}
    {
      if buffer.None? then Idle else Partial(Content(buffer.value), isCompressed, lastOpCode)
    }

    constructor ()
      ensures buffer == None
    {
      buffer, isCompressed, lastOpCode := None, false, 0;
      start, moved := 0, 0;
    }

    /** Lines 55-71: the first fragment is copied into a buffer of the pool. */
    method Begin(pool: Pool, payload: Slice)
      requires pool.Valid() && buffer.None? && InBounds(payload)
      requires payload.arr in pool.known ==> payload.arr in pool.lent
      modifies this`buffer, this`start, this`moved, pool, pool.known
      ensures pool.Valid() && Valid(pool) && buffer.Some?
      ensures Content(buffer.value) == old(Content(payload))
      ensures Held() !! old(pool.lent) && pool.lent == old(pool.lent) + Held()
      ensures old(pool.known) <= pool.known && fresh(pool.known - old(pool.known))
      ensures pool.dropped == old(pool.dropped)
      ensures Unchanged(old(pool.lent))
    {
      hide pool.Valid;
      var initialSize := payload.len;
      if initialSize < 512 {
        initialSize := 512;
      }
      var s := pool.Get(initialSize);
      CopyBytes(s.arr, 0, payload.arr, payload.len);
      buffer := Some(Slice(s.arr, payload.len));
      start, moved := initialSize, 0;
    }

    /** Lines 89-106: the payload is appended, in a larger buffer when needed. */
    method Extend(pool: Pool, payload: Slice)
      requires pool.Valid() && Valid(pool) && buffer.Some? && InBounds(payload)
      requires payload.arr in pool.known ==> payload.arr in pool.lent
      requires payload.arr !in Held()
      modifies this`buffer, this`moved, pool, pool.known
      ensures pool.Valid() && Valid(pool) && buffer.Some?
      ensures Content(buffer.value) == old(Content(buffer.value)) + old(Content(payload))
      ensures Held() == old(Held()) || Held() !! old(pool.lent)
      ensures pool.lent == old(pool.lent) - old(Held()) + Held()
      ensures old(pool.known) <= pool.known && fresh(pool.known - old(pool.known))
      ensures pool.dropped == old(pool.dropped)
      ensures Unchanged(old(pool.lent) - old(Held()))
    {
      hide pool.Valid;
      var required := buffer.value.len + payload.len;
      Reserve(pool, required);
      LentIsKnown(pool);
      var buf := buffer.value;
      var currentLen := buf.len;
      CopyBytes(buf.arr, currentLen, payload.arr, payload.len);
      assert buf.arr[..required] == buf.arr[..currentLen] + buf.arr[currentLen..required];
      buffer := Some(Slice(buf.arr, required));
    }

    method Reserve(pool: Pool, required: nat)
      requires pool.Valid() && Valid(pool) && buffer.Some? && buffer.value.len <= required
      modifies this`buffer, this`moved, pool, pool.known
      ensures pool.Valid() && buffer.Some? && buffer.value.arr in pool.lent
      ensures required <= buffer.value.arr.Length && GrowthCost(start, buffer.value.arr.Length, required, moved)
      ensures buffer.value.len == old(buffer.value.len) && Content(buffer.value) == old(Content(buffer.value))
      ensures Held() == old(Held()) || Held() !! old(pool.lent)
      ensures pool.lent == old(pool.lent) - old(Held()) + Held()
      ensures old(pool.known) <= pool.known && fresh(pool.known - old(pool.known))
      ensures pool.dropped == old(pool.dropped)
      ensures Unchanged(old(pool.lent) - old(Held()))
    {
      hide pool.Valid, CapFor, IsCapacity;
      var buf := buffer.value;
      var cap := buf.arr.Length;
      if required > cap {
        GrowthIsTight(cap, required);
        var newSize := cap * 2;
        if newSize < required {
          newSize := required;
        }
        var newBuf := pool.Get(newSize);
        CopyBytes(newBuf.arr, 0, buf.arr, buf.len);
        LentIsKnown(pool);
        pool.Put(buf);
        moved := moved + buf.len;
        buffer := Some(Slice(newBuf.arr, buf.len));
      }
    }

    /** Line 76 and line 83: the message in progress is given up. */
    method Discard(pool: Pool)
      requires pool.Valid() && Valid(pool) && buffer.Some?
      modifies this`buffer, pool, Held()
      ensures pool.Valid() && buffer == None && pool.lent == old(pool.lent) - old(Held())
      ensures pool.known == old(pool.known) && Unchanged(old(pool.lent) - old(Held()))
      ensures pool.dropped == old(pool.dropped)
    {
      pool.Put(buffer.value);
      buffer := None;
    }

    /** The frame a message ends with: deliver the buffer, or what it inflates to. */
    method Finish(pool: Pool, env: Env) returns (r: Outcome)
      requires pool.Valid() && Valid(pool) && buffer.Some?
      modifies this`buffer, pool, pool.known
      ensures pool.Valid() && buffer == None && SeenOk(r)
      ensures Seen(r) == if isCompressed then Decompress(env, lastOpCode, old(Content(buffer.value)))
                         else Deliver(lastOpCode, old(Content(buffer.value)))
      ensures r.Whole? ==> r.isReassembled && r.op == lastOpCode
      ensures r.Whole? ==> r.s.arr in old(Held()) || r.s.arr !in old(pool.lent)
      ensures pool.lent == old(pool.lent) - old(Held()) + Delivered(r)
      ensures old(pool.known) <= pool.known && fresh(pool.known - old(pool.known))
      ensures pool.dropped == old(pool.dropped)
      ensures Unchanged(old(pool.lent) - old(Held()))
    {
      hide pool.Valid, Decompress;
      var fullPayload := buffer.value;
      buffer := None;
      if isCompressed {
        var decompressed := DecompressData(pool, env, fullPayload, lastOpCode);
        LentIsKnown(pool);
        pool.Put(fullPayload);
        if decompressed.Failed? {
          return Failure(decompressed.error);
        }
        return Whole(lastOpCode, decompressed.s, true);
      }
      return Whole(lastOpCode, fullPayload, true);
    }

    /** ProcessFrame.  It does what Assemble says, and the pool's books balance: what was held is put back, held
        on to, or handed to the caller. */
    method ProcessFrame(pool: Pool, env: Env, header: Header, payload: Slice) returns (r: Outcome)
      requires pool.Valid() && Valid(pool) && InBounds(payload)
      requires payload.arr in pool.known ==> payload.arr in pool.lent
      requires payload.arr !in Held()
      modifies this, pool, pool.known
      ensures pool.Valid() && Valid(pool)
      ensures SeenOk(r) && (Abs(), Seen(r)) == Assemble(env, old(Abs()), header, old(Content(payload)))
      ensures r.Whole? && !r.isReassembled ==> r.s == payload
      ensures r.Whole? && r.isReassembled ==> r.s.arr in old(Held()) || r.s.arr !in old(pool.lent)
      ensures Held() <= old(Held()) || Held() !! old(pool.lent)
      ensures pool.lent == old(pool.lent) - old(Held()) + Held() + Delivered(r)
      ensures Held() !! Delivered(r)
      ensures old(pool.known) <= pool.known && fresh(pool.known - old(pool.known))
      ensures pool.dropped == old(pool.dropped)
      ensures Unchanged(old(pool.lent) - old(Held()))
    {
      hide pool.Valid, Decompress;
      if buffer.None? {
        if header.op == OP_CONTINUATION {
          return Failure(UnexpectedContinuation);
        }
        isCompressed := header.rsv == 4 && env.compression;
        lastOpCode := header.op;
        if header.fin {
          if isCompressed {
            var decompressed := DecompressData(pool, env, payload, header.op);
            if decompressed.Failed? {
              return Failure(decompressed.error);
            }
            return Whole(header.op, decompressed.s, true);
          }
          return Whole(header.op, payload, false);
        }
        Begin(pool, payload);
        return NoMessage;
      }
      r := Continue(pool, env, header, payload);
    }

    /** Lines 73-132. */
    method Continue(pool: Pool, env: Env, header: Header, payload: Slice) returns (r: Outcome)
      requires pool.Valid() && Valid(pool) && InBounds(payload) && buffer.Some?
      requires payload.arr in pool.known ==> payload.arr in pool.lent
      requires payload.arr !in Held()
      modifies this`buffer, this`moved, pool, pool.known
      ensures pool.Valid() && Valid(pool)
      ensures SeenOk(r) && (Abs(), Seen(r)) == Assemble(env, old(Abs()), header, old(Content(payload)))
      ensures r.Whole? ==> r.isReassembled && (r.s.arr in old(Held()) || r.s.arr !in old(pool.lent))
      ensures Held() <= old(Held()) || Held() !! old(pool.lent)
      ensures pool.lent == old(pool.lent) - old(Held()) + Held() + Delivered(r)
      ensures Held() !! Delivered(r)
      ensures old(pool.known) <= pool.known && fresh(pool.known - old(pool.known))
      ensures pool.dropped == old(pool.dropped)
      ensures Unchanged(old(pool.lent) - old(Held()))
    {
      hide pool.Valid, Decompress, GrowthCost;
      LentIsKnown(pool);
      if header.op != OP_CONTINUATION {
        Discard(pool);
        return Failure(ExpectedContinuation);
      }
      if env.maxFrameSize > 0 && buffer.value.len + payload.len > env.maxFrameSize {
        Discard(pool);
        return Failure(MessageTooLarge);
      }
      Extend(pool, payload);
      if header.fin {
        r := Finish(pool, env);
        return;
      }
      return NoMessage;
    }
  }

  /** The buffer that has become the caller's. */
  ghost function Delivered(r: Outcome): set<array<byte>>
  {
    if r.Whole? && r.isReassembled then {r.s.arr} else {}
  }

  ghost predicate SeenOk(r: Outcome)
  {
    r.Whole? ==> InBounds(r.s)
  }

  /** The result as the frame machine states it. */
  ghost function Seen(r: Outcome): Delivery
    requires SeenOk(r)
    reads if r.Whole? then {r.s.arr} else {}
  {
    match r
    case NoMessage => Nothing
    case Whole(op, s, _) => Deliver(op, Content(s))
    case Failure(e) => Fault(e)
  }
}
