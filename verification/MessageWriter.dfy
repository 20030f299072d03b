/** writeMessageInternal of pkg/websocket/writer.go, its error returns included. */
module MessageWriter {
  import opened Wrappers
  import opened Bytes
  import opened WsHeader
  import opened Masking
  import opened FrameMachine
  import opened Fragments
  import opened MessageCodec
  import opened BufferPool
  import opened Compression
  import opened ServeConns

  /** What a connection with so much room takes of some bytes; None is a connection that does not fail. */
  function Accepted(b: seq<byte>, room: Option<nat>): seq<byte>
  {
    if room.None? || |b| <= room.value then b else b[..room.value]
  }

  predicate Takes(b: seq<byte>, room: Option<nat>)
  {
    room.None? || |b| <= room.value
  }

  /** A net.Conn that is written to: after `room` more bytes it fails. */
  class Connection {
    var out: seq<byte>
    var room: Option<nat>

    constructor (room: Option<nat>)
      ensures out == [] && this.room == room
    {
      out := [];
      this.room := room;
    }

    method Write(b: seq<byte>) returns (ok: bool)
      modifies this
      ensures ok == Takes(b, old(room)) && out == old(out) + Accepted(b, old(room))
      ensures room == if old(room).None? then None else Some(old(room).value - |Accepted(b, old(room))|)
    {
      ok := Takes(b, room);
      var taken := Accepted(b, room);
      out := out + taken;
      if room.Some? {
        room := Some(room.value - |taken|);
      }
    }
  }

  /** Two writes in a row, of which the second happens if the first succeeds, are one write. */
  lemma WrittenInTwo(a: seq<byte>, b: seq<byte>, room: Option<nat>)
    ensures !Takes(a, room) ==> Accepted(a + b, room) == Accepted(a, room) && !Takes(a + b, room)
    ensures Takes(a, room) ==>
              Accepted(a, room) == a &&
              var left := if room.None? then None else Some(room.value - |a|);
              Accepted(a + b, room) == a + Accepted(b, left) && (Takes(a + b, room) <==> Takes(b, left))
  {
    if room.Some? && |a| <= room.value < |a + b| {
      assert (a + b)[..room.value] == a + b[..room.value - |a|];
    } else if room.Some? && room.value < |a| {
      assert (a + b)[..room.value] == a[..room.value];
    }
  }

  datatype SendResult = Sent | CompressFailed | KeyFailed | WriteFailed

  datatype Prepared = Ready(header: Header, data: Slice, compressed: bool) | Refused(result: SendResult)

  /** What a send gives; `key` is what rand.Read delivers, `room` what the connection takes. */
  function ResultOf(compresses: bool, flateFails: bool, masked: bool, key: Option<seq<byte>>, wire: seq<byte>,
                    room: Option<nat>): SendResult
  {
    if compresses && flateFails then CompressFailed
    else if masked && key.None? then KeyFailed
    else if Takes(wire, room) then Sent
    else WriteFailed
  }

  /** Each result, and exactly when; a failed write has passed on what there was room for. */
  lemma ResultMeaning(compresses: bool, flateFails: bool, masked: bool, key: Option<seq<byte>>, wire: seq<byte>,
                      room: Option<nat>)
    ensures var r := ResultOf(compresses, flateFails, masked, key, wire, room);
            && (r == CompressFailed <==> compresses && flateFails)
            && (r == KeyFailed <==> !(compresses && flateFails) && masked && key.None?)
            && (r == WriteFailed <==> !(compresses && flateFails) && !(masked && key.None?)
                                      && room.Some? && |wire| > room.value)
            && (r == WriteFailed ==> Accepted(wire, room) == wire[..room.value])
            && (r == Sent ==> Accepted(wire, room) == wire)
    ensures Takes(wire, room) <==> !(room.Some? && |wire| > room.value)
  {
  }

  function KeyOf(key: Option<seq<byte>>): seq<byte>
  {
    if key.Some? then key.value else NO_MASK
  }

  /** Lines 18-48: the header, and the payload to send - the application's, or a compressed one in a buffer of
      the pool. */
  method Prepare(pool: Pool, enabled: bool, deflate: seq<byte> -> seq<byte>, flateFails: bool, op: int, payload: Slice,
                 masked: bool, key: Option<seq<byte>>)
    returns (r: Prepared)
    requires pool.Valid() && Live(pool, payload)
    modifies pool, pool.known
    ensures pool.Valid() && old(pool.known) <= pool.known && fresh(pool.known - old(pool.known))
    ensures Unchanged(old(pool.lent)) && Content(payload) == old(Content(payload))
    ensures var m := Outgoing(op, old(Content(payload)), masked, KeyOf(key));
            var compresses := Compresses(enabled, m);
            && (r.Refused? <==> (compresses && flateFails) || (masked && key.None?))
            && (r.Refused? ==>
                  && r.result == ResultOf(compresses, flateFails, masked, key, [], None)
                  && pool.lent == old(pool.lent)
                  && pool.dropped == old(pool.dropped) + if compresses && r.result.KeyFailed? then 1 else 0)
            && (r.Ready? ==>
                  && Live(pool, r.data) && pool.dropped == old(pool.dropped)
                  && Frame(r.header, Content(r.data)) == FrameOf(enabled, deflate, m)
                  && r.header.mask == (if masked then key.value else NO_MASK)
                  && r.compressed == compresses
                  && (!compresses ==> r.data == payload && pool.lent == old(pool.lent))
                  && (compresses ==> r.data.arr !in old(pool.lent) && r.data.arr != payload.arr
                                     && pool.lent == old(pool.lent) + {r.data.arr}))
  {
    hide pool.Valid;
    LentIsKnown(pool);
    var compressed := false;
    var data := payload;
    var header := Header(true, 0, op, masked, payload.len, NO_MASK);
    if enabled && op != OP_PING && op != OP_PONG && op != OP_CLOSE {
      if payload.len >= MIN_COMPRESS_SIZE {
        var output := CompressData(pool, payload, deflate, flateFails);
        if output.None? {
          return Refused(CompressFailed);
        }
        data := output.value;
        LentIsKnown(pool);
        header := header.(length := data.len);
        header := header.(rsv := 4);
        compressed := true;
      }
    }
    if masked {
      if key.None? {
        if compressed {
          pool.Drop(data);
        }
        return Refused(KeyFailed);
      }
      header := header.(mask := key.value);
    }
    return Ready(header, data, compressed);
  }

  /** The frame is what MessageCodec says, cut off where the connection fails; every buffer taken is back in the pool,
      and the application's own payload is not touched - masking works on a copy or on the compressed buffer.  A
      compressed buffer is lost to the collector exactly when the key or the header cannot be had, or when there is
      nothing in it. */
  method WriteMessage(c: Connection, pool: Pool, enabled: bool, deflate: seq<byte> -> seq<byte>, flateFails: bool,
                      op: int, payload: Slice, masked: bool, key: Option<seq<byte>>)
    returns (r: SendResult)
    requires pool.Valid() && Live(pool, payload) && |KeyOf(key)| == 4
    requires WellFormed(FrameOf(enabled, deflate, Outgoing(op, Content(payload), masked, KeyOf(key))).h)
    modifies c, pool, pool.known
    ensures pool.Valid() && pool.lent == old(pool.lent) && Unchanged(old(pool.lent))
    ensures Content(payload) == old(Content(payload))
    ensures var m := Outgoing(op, old(Content(payload)), masked, KeyOf(key));
            var wire := BytesToSend(enabled, deflate, m);
            var f := FrameOf(enabled, deflate, m);
            && r == ResultOf(Compresses(enabled, m), flateFails, masked, key, wire, old(c.room))
            && c.out == old(c.out) + (if r.Sent? || r.WriteFailed? then Accepted(wire, old(c.room)) else [])
            && pool.dropped == old(pool.dropped) +
                 if Compresses(enabled, m) && !r.CompressFailed?
                    && (r.KeyFailed? || f.payload == [] || !Takes(EncodeHeader(f.h), old(c.room))) then 1 else 0
  {
    hide pool.Valid, EncodeHeader, FrameOf, Cipher, WellFormed, Accepted, Takes;
    ghost var m := Outgoing(op, Content(payload), masked, KeyOf(key));
    var prepared := Prepare(pool, enabled, deflate, flateFails, op, payload, masked, key);
    if prepared.Refused? {
      return prepared.result;
    }
    ghost var f := Frame(prepared.header, Content(prepared.data));
    assert FrameOf(enabled, deflate, m) == f && WireOf(f) == BytesToSend(enabled, deflate, m);
    LentIsKnown(pool);
    var ok := SendFrame(c, pool, prepared.header, prepared.data, prepared.compressed);
    return if ok then Sent else WriteFailed;
  }

  /** Lines 50-86: the header, then the payload. */
  method SendFrame(c: Connection, pool: Pool, header: Header, data: Slice, compressed: bool) returns (ok: bool)
    requires pool.Valid() && Live(pool, data) && WellFormed(header)
    requires compressed ==> data.arr in pool.lent
    modifies c, pool, pool.known, if compressed then {data.arr} else {}
    ensures pool.Valid() && pool.lent == if compressed then old(pool.lent) - {data.arr} else old(pool.lent)
    ensures Unchanged(old(pool.lent) - if compressed then {data.arr} else {})
    ensures !compressed ==> Content(data) == old(Content(data))
    ensures var wire := EncodeHeader(header) + Unmasked(header, old(Content(data)));
            ok == Takes(wire, old(c.room)) && c.out == old(c.out) + Accepted(wire, old(c.room))
    ensures pool.dropped == old(pool.dropped) +
              if compressed && (old(Content(data)) == [] || !Takes(EncodeHeader(header), old(c.room))) then 1 else 0
  {
    hide pool.Valid, EncodeHeader, Cipher, Accepted, Takes, BucketsOk;
    ghost var wire := Unmasked(header, Content(data));
    WrittenInTwo(EncodeHeader(header), wire, c.room);
    LentIsKnown(pool);
    ok := c.Write(EncodeHeader(header));
    if !ok {
      if compressed {
        pool.Drop(data);
      }
      return;
    }
    if data.len > 0 {
      ok := SendPayload(c, pool, header, data, compressed);
      return;
    }
    NothingToWrite(c.room);
    if compressed {
      pool.Drop(data);
    }
  }

  lemma NothingToWrite(room: Option<nat>)
    ensures Takes([], room) && Accepted([], room) == []
  {
  }

  /** Lines 58-83. */
  method SendPayload(c: Connection, pool: Pool, header: Header, data: Slice, compressed: bool) returns (ok: bool)
    requires pool.Valid() && Live(pool, data) && |header.mask| == 4
    requires compressed ==> data.arr in pool.lent
    modifies c, pool, pool.known, if compressed then {data.arr} else {}
    ensures pool.Valid() && old(pool.known) <= pool.known && fresh(pool.known - old(pool.known))
    ensures pool.dropped == old(pool.dropped)
    ensures pool.lent == if compressed then old(pool.lent) - {data.arr} else old(pool.lent)
    ensures Unchanged(old(pool.lent) - if compressed then {data.arr} else {})
    ensures !compressed ==> Content(data) == old(Content(data))
    ensures ok == Takes(Unmasked(header, old(Content(data))), old(c.room))
    ensures c.out == old(c.out) + Accepted(Unmasked(header, old(Content(data))), old(c.room))
  {
    hide pool.Valid, CapFor, IsCapacity, Cipher, Takes, Accepted;
    LentIsKnown(pool);
    if header.masked {
      if !compressed {
        var b := pool.Get(data.len);
        CopyBytes(b.arr, 0, data.arr, data.len);
        assert b.arr[..b.len] == old(data.arr[..data.len]);
        CipherInPlace(b.arr, b.len, header.mask);
        ok := c.Write(b.arr[..b.len]);
        pool.Put(b);
      } else {
        CipherInPlace(data.arr, data.len, header.mask);
        ok := c.Write(data.arr[..data.len]);
        pool.Put(data);
      }
    } else {
      ok := c.Write(data.arr[..data.len]);
      if compressed {
        pool.Put(data);
      }
    }
  }

  /** A kilobyte to compress, and no key to mask it with: the compressed buffer is lost. */
  method LostBufferExample(deflate: seq<byte> -> seq<byte>) returns (pool: Pool, r: SendResult)
    requires forall x :: |deflate(x)| <= MAX_INT
    ensures fresh(pool) && pool.Valid() && pool.dropped == 1 && r == KeyFailed
  {
    pool := new Pool();
    var memory := new byte[MIN_COMPRESS_SIZE](_ => 65);
    var c := new Connection(None);
    ghost var m := Outgoing(OP_TEXT, memory[..], true, NO_MASK);
    assert memory[..MIN_COMPRESS_SIZE] == memory[..];
    r := WriteMessage(c, pool, true, deflate, false, OP_TEXT, Slice(memory, MIN_COMPRESS_SIZE), true, None);
  }
}
