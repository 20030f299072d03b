/** The bucketed payload pool of pkg/websocket/pool.go and the growing writer built on it.

    A slice that starts at the beginning of its array is the array and a length; its capacity is the
    array's length. */
module BufferPool {
  import opened Bytes

  datatype Slice = Slice(arr: array<byte>, len: nat)

  ghost predicate InBounds(s: Slice)
  {
    s.len <= s.arr.Length
  }

  ghost function Content(s: Slice): (c: seq<byte>)
    requires InBounds(s)
    reads s.arr
    ensures |c| == s.len
  {
    s.arr[..s.len]
  }

  /** The capacity getPayloadBuffer gives for a size. */
  function CapFor(size: nat): (c: nat)
    ensures c >= size && IsCapacity(c)
  {
    if size <= 512 then 512
    else if size <= 4096 then 4096
    else if size <= 16384 then 16384
    else if size <= 65536 then 65536
    else size
  }

  /** It is the least bucket that is large enough, and above the last bucket the size itself. */
  lemma LeastBucket(size: nat)
    ensures size <= 65536 ==> CapFor(size) in {512, 4096, 16384, 65536}
    ensures size <= 65536 ==> forall c :: c in BUCKETS && c >= size ==> CapFor(size) <= c
    ensures size > 65536 ==> CapFor(size) == size
    ensures BUCKETS == {512, 4096, 16384, 65536}
  {
  }

  /** The capacities buffers of the pool have: the four bucket sizes, and everything above the last. */
  predicate IsCapacity(c: nat)
  {
    c == 512 || c == 4096 || c == 16384 || c >= 65536
  }

  /** The growth rule of both growing buffers: twice the capacity, or what is required if that is more. */
  function Grown(cap: nat, required: nat): nat
  {
    if cap * 2 < required then required else cap * 2
  }

  /** A growth step at least doubles the capacity and stays below 8 times what is required. */
  lemma GrowthIsTight(cap: nat, required: nat)
    requires IsCapacity(cap) && required > cap
    ensures 2 * cap <= CapFor(Grown(cap, required)) < 8 * required && required <= CapFor(Grown(cap, required))
  {
  }

  /** copy(dst, src) for n bytes. */
  method CopyBytes(dst: array<byte>, at: nat, src: array<byte>, n: nat)
    requires at + n <= dst.Length && n <= src.Length && dst != src
    modifies dst
    ensures dst[..at] == old(dst[..at]) && dst[at..at + n] == src[..n]
    ensures dst[at + n..] == old(dst[at + n..])
  {
    for i := 0 to n
      invariant forall k :: 0 <= k < i ==> dst[at + k] == src[k]
      invariant forall k :: 0 <= k < dst.Length && !(at <= k < at + i) ==> dst[k] == old(dst[k])
    {
      dst[at + i] := src[i];
    }
  }

  /** Every array in s has the bytes it had. */
  twostate predicate Unchanged(s: set<array<byte>>)
    reads s
  {
    forall a :: a in s ==> a[..] == old(a[..])
  }

  const BUCKETS: set<nat> := {512, 4096, 16384, 65536}

  type Buckets = map<nat, set<array<byte>>>

  /** Each bucket holds arrays of its own size, handed out before and not lent.  (A buffer is only put back while
      lent, so no bucket could hold one twice.) */
  ghost predicate BucketsOk(free: Buckets, known: set<array<byte>>, lent: set<array<byte>>)
  {
    free.Keys == BUCKETS
    && forall c, a :: c in free && a in free[c] ==> a.Length == c && a in known && a !in lent
  }

  lemma LendFree(free: Buckets, known: set<array<byte>>, lent: set<array<byte>>, a: array<byte>)
    requires BucketsOk(free, known, lent) && a.Length in BUCKETS && a in free[a.Length]
    ensures a in known && a !in lent
    ensures BucketsOk(free[a.Length := free[a.Length] - {a}], known + {a}, lent + {a})
  {
  }

  lemma LendNew(free: Buckets, known: set<array<byte>>, lent: set<array<byte>>, a: array<byte>)
    requires BucketsOk(free, known, lent) && a !in known
    ensures BucketsOk(free, known + {a}, lent + {a})
  {
  }

  lemma PutBack(free: Buckets, known: set<array<byte>>, lent: set<array<byte>>, a: array<byte>)
    requires BucketsOk(free, known, lent) && a in lent && a in known
    ensures a.Length in BUCKETS ==> BucketsOk(free[a.Length := free[a.Length] + {a}], known, lent - {a})
    ensures BucketsOk(free, known, lent - {a})
  {
  }

  class Pool {
    var free: Buckets                  // pool512b, pool4k, pool16k and pool64k, by size
    ghost var lent: set<array<byte>>   // taken and not put back
    ghost var known: set<array<byte>>  // every array ever handed out
    ghost var requests: seq<nat>       // the sizes asked for
    ghost var dropped: nat             // buffers lost to the collector where a put was due

    ghost predicate Valid()
      reads this
    {
      && BucketsOk(free, known, lent)
      && lent <= known
      && forall a :: a in known ==> IsCapacity(a.Length)
    }

    constructor ()
      ensures Valid() && lent == known == {} && requests == [] && dropped == 0
    {
      free := map[512 := {}, 4096 := {}, 16384 := {}, 65536 := {}];
      lent, known, requests, dropped := {}, {}, [], 0;
    }

    /** getPayloadBuffer.  sync.Pool.Get gives any free array of the bucket, or a new one; above 64 KB the array
        is always new. */
    method Get(size: nat) returns (s: Slice)
      requires Valid()
      modifies this
      ensures Valid() && s.len == size && s.arr.Length == CapFor(size)
      ensures s.arr !in old(lent) && lent == old(lent) + {s.arr}
      ensures known == old(known) + {s.arr} && (s.arr in old(known) || fresh(s.arr))
      ensures requests == old(requests) + [size] && dropped == old(dropped)
    {
      hide BucketsOk;
      var a;
      var cap := CapFor(size);
      var pooled := false;
      if size <= 65536 && cap in free && free[cap] != {} {
        pooled := *;
      }
      if pooled {
        a :| a in free[cap];
        FreeSize(free, known, lent, cap, a);
        LendFree(free, known, lent, a);
        free := free[cap := free[cap] - {a}];
      } else {
        a := new byte[cap](_ => 0);
        LendNew(free, known, lent, a);
      }
      lent := lent + {a};
      known := known + {a};
      requests := requests + [size];
      s := Slice(a, size);
    }

    /** A buffer of no bucket's size may be let go without a put. */
    ghost method Forget(s: Slice)
      requires Valid() && s.arr in lent && s.arr.Length !in BUCKETS
      modifies this`lent
      ensures Valid() && lent == old(lent) - {s.arr}
    {
      PutBack(free, known, lent, s.arr);
      lent := lent - {s.arr};
    }

    /** A buffer the source loses on an error path is the collector's. */
    ghost method Drop(s: Slice)
      requires Valid() && s.arr in lent
      modifies this`lent, this`dropped
      ensures Valid() && lent == old(lent) - {s.arr} && dropped == old(dropped) + 1
    {
      PutBack(free, known, lent, s.arr);
      lent := lent - {s.arr};
      dropped := dropped + 1;
    }

    /** putPayloadBuffer: the capacity decides the bucket; other capacities are left to the collector.  Putting
        back requires that the buffer is lent, so nothing is put twice and no foreign memory enters.  From here on
        another goroutine may take the buffer and write to it, so its bytes are arbitrary: whoever reads it after
        the put can prove nothing about what is read. */
    method Put(s: Slice)
      requires Valid() && s.arr in lent
      modifies this, s.arr
      ensures Valid() && lent == old(lent) - {s.arr} && known == old(known) && requests == old(requests)
      ensures dropped == old(dropped)
      ensures s.arr.Length in BUCKETS ==>
                s.arr.Length in old(free)
                && free == old(free)[s.arr.Length := old(free)[s.arr.Length] + {s.arr}]
      ensures s.arr.Length !in BUCKETS ==> free == old(free)
    {
      hide BucketsOk;
      var c := s.arr.Length;
      PutBack(free, known, lent, s.arr);
      FourBuckets(free, known, lent);
      if c == 512 || c == 4096 || c == 16384 || c == 65536 {
        free := free[c := free[c] + {s.arr}];
      }
      lent := lent - {s.arr};
      Overwrite(s.arr);
    }
  }

  /** Whatever the next owner writes. */
  method Overwrite(a: array<byte>)
    modifies a
  {
    for i := 0 to a.Length {
      a[i] := *;
    }
  }

  lemma LentIsKnown(pool: Pool)
    requires pool.Valid()
    ensures pool.lent <= pool.known
  {
  }

  lemma FreeSize(free: Buckets, known: set<array<byte>>, lent: set<array<byte>>, cap: nat, a: array<byte>)
    requires BucketsOk(free, known, lent) && cap in free && a in free[cap]
    ensures a.Length == cap && cap in BUCKETS
  {
  }

  lemma FourBuckets(free: Buckets, known: set<array<byte>>, lent: set<array<byte>>)
    requires BucketsOk(free, known, lent)
    ensures free.Keys == BUCKETS
  {
  }
}
