/** DecompressData, PooledWriter and CompressData of pkg/websocket. */
module Compression {
  import opened Wrappers
  import opened Bytes
  import opened BufferPool
  import opened FrameMachine

  datatype ReadStatus = MoreToCome | EndOfStream | StreamError

  /** A flate reader: a fixed stream, delivered in pieces of any size but never empty, and then io.EOF or an
      error, which may come with the last piece or after it. */
  class Inflater {
    const stream: seq<byte>
    const clean: bool
    var pos: nat

    constructor (s: Inflated)
      ensures stream == s.data && clean == s.clean && pos == 0
    {
      stream, clean, pos := s.data, s.clean, 0;
    }

    /** Read(buf[lo..hi]).  The source never asks for zero bytes. */
    method Read(buf: array<byte>, lo: nat, hi: nat) returns (n: nat, status: ReadStatus)
      requires lo < hi <= buf.Length && pos <= |stream|
      modifies this`pos, buf
      ensures pos == old(pos) + n <= |stream| && n <= hi - lo
      ensures status == MoreToCome ==> n > 0
      ensures status != MoreToCome ==> pos == |stream| && (status == EndOfStream <==> clean)
      ensures buf[..lo] == old(buf[..lo]) && buf[lo..lo + n] == stream[old(pos)..pos]
    {
      var most := if |stream| - pos < hi - lo then |stream| - pos else hi - lo;
      var some: int := *;
      n := if 0 < some < most then some else most;
      for i := 0 to n
        invariant buf[..lo] == old(buf[..lo])
        invariant pos == old(pos)
        invariant buf[lo..lo + i] == stream[pos..pos + i]
      {
        buf[lo + i] := stream[pos + i];
        assert buf[lo..lo + i + 1] == buf[lo..lo + i] + [stream[pos + i]];
      }
      pos := pos + n;
      status := MoreToCome;
      var now := *;
      if pos == |stream| && (n == 0 || now) {
        status := if clean then EndOfStream else StreamError;
      }
    }
  }

  datatype BufferOrError = Buffer(s: Slice) | Failed(error: WsError)

  /** The initial buffer: twice the payload, at least 4096. */
  function InitialSize(payloadLen: nat): nat
  {
    if payloadLen * 2 < 4096 then 4096 else payloadLen * 2
  }

  /** What a buffer size may be: the initial one, or with a positive limit one byte more than the limit. */
  ghost predicate SizeOk(payloadLen: nat, limit: int, size: nat)
  {
    limit > 0 ==> size <= 4096 || size <= 2 * payloadLen || size <= limit + 1
  }

  /** Every buffer size asked for since `from` is within that. */
  ghost predicate RequestsOk(payloadLen: nat, limit: int, requests: seq<nat>, from: nat)
  {
    from <= |requests| && forall i :: from <= i < |requests| ==> SizeOk(payloadLen, limit, requests[i])
  }

  lemma RequestsGrow(payloadLen: nat, limit: int, requests: seq<nat>, from: nat, size: nat)
    requires RequestsOk(payloadLen, limit, requests, from) && SizeOk(payloadLen, limit, size)
    ensures RequestsOk(payloadLen, limit, requests + [size], from)
  {
  }

  lemma FirstRequest(payloadLen: nat, limit: int, requests: seq<nat>)
    ensures InitialSize(payloadLen) >= 4096
    ensures RequestsOk(payloadLen, limit, requests + [InitialSize(payloadLen)], |requests|)
  {
  }

  /** Lines 99-119: a full buffer is replaced by a larger one. */
  method GrowBuffer(pool: Pool, buf: Slice, limit: int) returns (grown: Slice)
    requires pool.Valid() && buf.arr in pool.lent && InBounds(buf) && buf.len >= 4096
    requires limit > 0 ==> buf.len <= limit
    modifies pool, pool.known
    ensures pool.Valid() && InBounds(grown) && grown.len > buf.len
    ensures pool.lent == old(pool.lent) - {buf.arr} + {grown.arr} && grown.arr !in old(pool.lent)
    ensures old(pool.known) <= pool.known && fresh(pool.known - old(pool.known))
    ensures pool.dropped == old(pool.dropped)
    ensures Unchanged(old(pool.lent) - {buf.arr})
    ensures grown.arr[..buf.len] == old(buf.arr[..buf.len])
    ensures pool.requests == old(pool.requests) + [grown.len]
    ensures limit > 0 ==> grown.len <= limit + 1
  {
    var newSize := buf.len * 2;
    if limit > 0 && newSize > limit {
      newSize := limit + 1;
    }
    if newSize <= buf.len {
      assert false; // "cannot grow" is never reached
    }
    grown := pool.Get(newSize);
    CopyBytes(grown.arr, 0, buf.arr, buf.len);
    pool.Put(buf);
  }

  /** One pass of the loop: room is made when the buffer is full, then the inflater fills what is free. */
  method ReadSome(pool: Pool, fr: Inflater, buf: Slice, offset: nat, limit: int, ghost payloadLen: nat, ghost from: nat)
    returns (next: Slice, n: nat, status: ReadStatus)
    requires pool.Valid() && buf.arr in pool.lent && InBounds(buf) && buf.len >= 4096
    requires fr.pos == offset <= buf.len && offset <= |fr.stream| && buf.arr[..offset] == fr.stream[..offset]
    requires limit > 0 ==> offset <= limit
    requires RequestsOk(payloadLen, limit, pool.requests, from)
    modifies pool, pool.known, fr`pos
    ensures pool.Valid() && InBounds(next) && next.len >= 4096
    ensures pool.lent == old(pool.lent) - {buf.arr} + {next.arr}
    ensures next.arr == buf.arr || next.arr !in old(pool.lent)
    ensures old(pool.known) <= pool.known && fresh(pool.known - old(pool.known))
    ensures pool.dropped == old(pool.dropped)
    ensures Unchanged(old(pool.lent) - {buf.arr})
    ensures fr.pos == offset + n <= next.len && offset + n <= |fr.stream|
    ensures next.arr[..offset + n] == fr.stream[..offset + n]
    ensures status == MoreToCome ==> n > 0
    ensures status != MoreToCome ==> offset + n == |fr.stream| && (status == EndOfStream <==> fr.clean)
    ensures RequestsOk(payloadLen, limit, pool.requests, from)
  {
    next := buf;
    if offset >= buf.len {
      next := GrowBuffer(pool, buf, limit);
      RequestsGrow(payloadLen, limit, old(pool.requests), from, next.len);
    }
    hide pool.Valid, RequestsOk;
    n, status := fr.Read(next.arr, offset, next.len);
    assert next.arr[..offset + n] == next.arr[..offset] + next.arr[offset..offset + n];
  }

  /** The loop, lines 98-137: the buffer given is put back or is, or grows into, the one returned. */
  method Inflate(pool: Pool, fr: Inflater, first: Slice, limit: int, ghost payloadLen: nat, ghost from: nat)
    returns (r: BufferOrError)
    requires pool.Valid() && first.arr in pool.lent && InBounds(first) && first.len >= 4096 && fr.pos == 0
    requires RequestsOk(payloadLen, limit, pool.requests, from)
    modifies pool, pool.known, fr`pos
    ensures pool.Valid() && old(pool.known) <= pool.known && fresh(pool.known - old(pool.known))
    ensures pool.dropped == old(pool.dropped)
    ensures Unchanged(old(pool.lent) - {first.arr})
    ensures r.Buffer? ==>
              && InBounds(r.s) && (r.s.arr == first.arr || r.s.arr !in old(pool.lent))
              && pool.lent == old(pool.lent) - {first.arr} + {r.s.arr}
              && Content(r.s) == fr.stream && fr.clean && !(limit > 0 && |fr.stream| > limit)
    ensures r.Failed? ==>
              && pool.lent == old(pool.lent) - {first.arr}
              && (if limit > 0 && |fr.stream| > limit then r.error == DecompressedTooLarge
                  else r.error == CorruptStream && !fr.clean)
    ensures RequestsOk(payloadLen, limit, pool.requests, from)
  {
    hide pool.Valid, RequestsOk, CapFor, IsCapacity, BucketsOk;
    var buf := first;
    var offset, status := 0, MoreToCome;
    while status == MoreToCome
      invariant pool.Valid() && InBounds(buf) && buf.len >= 4096
      invariant buf.arr == first.arr || buf.arr !in old(pool.lent)
      invariant pool.lent == old(pool.lent) - {first.arr} + {buf.arr}
      invariant old(pool.known) <= pool.known && fresh(pool.known - old(pool.known))
      invariant pool.dropped == old(pool.dropped)
      invariant Unchanged(old(pool.lent) - {first.arr})
      invariant fr.pos == offset <= buf.len && offset <= |fr.stream| && buf.arr[..offset] == fr.stream[..offset]
      invariant limit > 0 ==> offset <= limit
      invariant status != StreamError && (status == EndOfStream ==> offset == |fr.stream| && fr.clean)
      invariant RequestsOk(payloadLen, limit, pool.requests, from)
      decreases |fr.stream| - offset, status == MoreToCome
    {
      var n;
      buf, n, status := ReadSome(pool, fr, buf, offset, limit, payloadLen, from);
      offset := offset + n;
      LentIsKnown(pool);
      if limit > 0 && offset > limit {
        pool.Put(buf);
        return Failed(DecompressedTooLarge);
      }
      if status == StreamError {
        pool.Put(buf);
        return Failed(CorruptStream);
      }
    }
    assert fr.stream[..offset] == fr.stream;
    return Buffer(Slice(buf.arr, offset));
  }

  /** DecompressData: the whole stream exactly when it ends cleanly within the limit, however the inflater cuts
      its reads.  Every buffer taken is put back, except the one returned. */
  method DecompressData(pool: Pool, env: Env, payload: Slice, op: int) returns (r: BufferOrError)
    requires pool.Valid() && InBounds(payload)
    requires payload.arr in pool.known ==> payload.arr in pool.lent
    modifies pool, pool.known
    ensures pool.Valid() && old(pool.known) <= pool.known && fresh(pool.known - old(pool.known))
    ensures pool.dropped == old(pool.dropped)
    ensures Unchanged(old(pool.lent))
    ensures r.Buffer? ==>
              && InBounds(r.s) && r.s.arr !in old(pool.lent) && pool.lent == old(pool.lent) + {r.s.arr}
              && Decompress(env, op, old(Content(payload))) == Deliver(op, Content(r.s))
    ensures r.Failed? ==> pool.lent == old(pool.lent) && Decompress(env, op, old(Content(payload))) == Fault(r.error)
    ensures RequestsOk(payload.len, env.maxFrameSize, pool.requests, |old(pool.requests)|)
  {
    hide pool.Valid, RequestsOk, InitialSize, CapFor, IsCapacity, BucketsOk;
    var fr := new Inflater(env.inflate(payload.arr[..payload.len] + SYNC_TAIL));
    FirstRequest(payload.len, env.maxFrameSize, pool.requests);
    var buf := pool.Get(InitialSize(payload.len));
    r := Inflate(pool, fr, buf, env.maxFrameSize, payload.len, |old(pool.requests)|);
  }

  // ----- the growing writer

  /** PooledWriter as CompressData uses it; `moved` counts the bytes copied by growing. */
  class PooledWriter {
    var buf: Slice
    ghost var moved: nat
    ghost const start: nat

    /** The bytes written so far, in one lent buffer; growing has been cheap. */
    ghost predicate Valid(pool: Pool)
      reads this, pool
    {
      && pool.Valid() && buf.arr in pool.lent && InBounds(buf)
      && GrowthCost(start, buf.arr.Length, buf.len, moved)
    }

    constructor (pool: Pool, size: nat)
      requires pool.Valid()
      modifies pool
      ensures Valid(pool) && buf.len == 0 && buf.arr !in old(pool.lent)
      ensures pool.lent == old(pool.lent) + {buf.arr} && old(pool.known) <= pool.known
      ensures fresh(pool.known - old(pool.known))
      ensures pool.dropped == old(pool.dropped)
    {
      var s := pool.Get(size);
      buf := Slice(s.arr, 0);
      moved, start := 0, size;
    }

    /** Lines 65-83: room for `required` bytes, with the same content. */
    method Reserve(pool: Pool, required: nat)
      requires Valid(pool) && buf.len <= required
      modifies this, pool, pool.known
      ensures pool.Valid() && buf.arr in pool.lent && required <= buf.arr.Length
      ensures buf.len == old(buf.len) && buf.arr[..buf.len] == old(buf.arr[..buf.len])
      ensures GrowthCost(start, buf.arr.Length, required, moved)
      ensures buf.arr == old(buf.arr) || buf.arr !in old(pool.lent)
      ensures pool.lent == old(pool.lent) - {old(buf.arr)} + {buf.arr}
      ensures old(pool.known) <= pool.known && fresh(pool.known - old(pool.known))
      ensures pool.dropped == old(pool.dropped)
      ensures Unchanged(old(pool.lent) - {old(buf.arr)})
    {
      hide pool.Valid, CapFor, IsCapacity;
      var cap := buf.arr.Length;
      if cap < required {
        GrowthIsTight(cap, required);
        var newCap := cap * 2;
        if newCap < required {
          newCap := required;
        }
        var newBuf := pool.Get(newCap);
        CopyBytes(newBuf.arr, 0, buf.arr, buf.len);
        LentIsKnown(pool);
        if 512 <= cap <= 65536 {
          pool.Put(buf);
        } else {
          pool.Forget(buf);
        }
        moved := moved + buf.len;
        buf := Slice(newBuf.arr, buf.len);
      }
    }

    /** Write: appends, in a larger buffer when needed. */
    method Write(pool: Pool, data: seq<byte>)
      requires Valid(pool)
      modifies this, pool, pool.known
      ensures Valid(pool) && Content(buf) == old(Content(buf)) + data
      ensures buf.arr == old(buf.arr) || buf.arr !in old(pool.lent)
      ensures pool.lent == old(pool.lent) - {old(buf.arr)} + {buf.arr}
      ensures old(pool.known) <= pool.known && fresh(pool.known - old(pool.known))
      ensures pool.dropped == old(pool.dropped)
      ensures Unchanged(old(pool.lent) - {old(buf.arr)})
    {
      var currentLen := buf.len;
      Reserve(pool, currentLen + |data|);
      buf := Slice(buf.arr, currentLen + |data|);
      Append(buf.arr, currentLen, data);
    }
  }

  /** All growth copies together move less than twice what the buffer then holds, and a buffer that has
      grown is less than 8 times as large as what it had to hold. */
  ghost predicate GrowthCost(start: nat, cap: nat, len: nat, moved: nat)
  {
    && IsCapacity(cap) && moved <= cap && (moved > 0 ==> moved < 2 * len)
    && (cap == CapFor(start) || cap < 8 * len)
  }

  method Append(a: array<byte>, at: nat, data: seq<byte>)
    requires at + |data| <= a.Length
    modifies a
    ensures a[..at + |data|] == old(a[..at]) + data
  {
    for i := 0 to |data|
      invariant a[..at + i] == old(a[..at]) + data[..i]
    {
      a[at + i] := data[i];
      assert a[..at + i + 1] == a[..at + i] + [data[i]];
    }
  }

  /** CompressData: the flate writer hands its output to the pooled writer in pieces of any size, and the one
      buffer that is left holds the whole output.  When the flate writer fails, after any part of it, the buffer goes
      back. */
  method CompressData(pool: Pool, payload: Slice, deflate: seq<byte> -> seq<byte>, fails: bool)
    returns (r: Option<Slice>)
    requires pool.Valid() && InBounds(payload) && (payload.arr in pool.known ==> payload.arr in pool.lent)
    modifies pool, pool.known
    ensures pool.Valid() && (r.None? <==> fails)
    ensures r.Some? ==>
              && InBounds(r.value) && Content(r.value) == deflate(old(Content(payload)))
              && r.value.arr !in old(pool.lent) && pool.lent == old(pool.lent) + {r.value.arr}
    ensures r.None? ==> pool.lent == old(pool.lent)
    ensures old(pool.known) <= pool.known && fresh(pool.known - old(pool.known))
    ensures pool.dropped == old(pool.dropped)
    ensures Unchanged(old(pool.lent))
  {
    hide pool.Valid, GrowthCost;
    var output := deflate(payload.arr[..payload.len]);
    var initialCap := payload.len;
    if initialCap < 512 {
      initialCap := 512;
    }
    var pw := new PooledWriter(pool, initialCap);
    var done := 0;
    var stop := |output|;
    if fails {
      var part: int := *;
      stop := if 0 <= part < |output| then part else |output|;
    }
    while done < stop
      invariant pw.Valid(pool) && done <= stop <= |output| && Content(pw.buf) == output[..done]
      invariant pw.buf.arr !in old(pool.lent) && pool.lent == old(pool.lent) + {pw.buf.arr}
      invariant old(pool.known) <= pool.known && fresh(pool.known - old(pool.known))
      invariant pool.dropped == old(pool.dropped)
      invariant Unchanged(old(pool.lent)) && fresh(pw)
    {
      var some: int := *;
      var n := if 0 < some < stop - done then some else stop - done;
      pw.Write(pool, output[done..done + n]);
      assert output[..done] + output[done..done + n] == output[..done + n];
      done := done + n;
    }
    if fails {
      LentIsKnown(pool);
      pool.Put(pw.buf);
      return None;
    }
    assert output[..done] == output;
    return Some(pw.buf);
  }
}
