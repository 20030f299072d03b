/** ws.Cipher, from section 5.3 of RFC 6455: byte i is combined with mask byte i mod 4 by exclusive or. */
module Masking {
  import opened Bytes

  function Pow2(n: nat): nat
  {
    if n == 0 then 1 else 2 * Pow2(n - 1)
  }

  /** Exclusive or of the n low bits. */
  function XorBits(a: nat, b: nat, n: nat): (r: nat)
    ensures r < Pow2(n)
    decreases n
  {
    if n == 0 then 0 else (a % 2 + b % 2) % 2 + 2 * XorBits(a / 2, b / 2, n - 1)
  }

  lemma LowBit(a: nat, b: nat, n: nat)
    requires n > 0
    ensures var x := XorBits(a, b, n);
            x / 2 == XorBits(a / 2, b / 2, n - 1) && x % 2 == (a % 2 + b % 2) % 2
  {
  }

  lemma NoBit(a: nat, b: nat)
    ensures XorBits(a, b, 0) == 0
  {
  }

  lemma {:induction false} XorTwice(a: nat, b: nat, n: nat)
    requires a < Pow2(n)
    ensures XorBits(XorBits(a, b, n), b, n) == a
    decreases n
  {
    hide XorBits;
    var x := XorBits(a, b, n);
    if n == 0 {
      NoBit(x, b);
    } else {
      LowBit(a, b, n);
      XorTwice(a / 2, b / 2, n - 1);
      LowBit(x, b, n);
    }
  }

  lemma Pow2Of8()
    ensures Pow2(8) == 256
  {
    assert Pow2(4) == 16;
  }

  function XorByte(a: byte, b: byte): byte
  {
    Pow2Of8();
    XorBits(a, b, 8)
  }

  /** Bit k of a number, from the lowest. */
  function Bit(a: nat, k: nat): (bit: nat)
    ensures bit < 2
  {
    if k == 0 then a % 2 else Bit(a / 2, k - 1)
  }

  /** A bit of the exclusive or is set exactly when it is set in one of the two. */
  lemma {:induction false} XorBit(a: nat, b: nat, n: nat, k: nat)
    requires k < n
    ensures Bit(XorBits(a, b, n), k) == 1 <==> Bit(a, k) != Bit(b, k)
    decreases n
  {
    var x := XorBits(a, b, n);
    assert x / 2 == XorBits(a / 2, b / 2, n - 1) && x % 2 == (a % 2 + b % 2) % 2;
    if k > 0 {
      XorBit(a / 2, b / 2, n - 1, k - 1);
    }
  }

  /** Section 5.3 of RFC 6455, bit by bit: a payload bit changes exactly where the mask byte at the same position
      modulo four has a bit. */
  lemma CipherFlipsMaskBits(payload: seq<byte>, mask: seq<byte>, i: nat, k: nat)
    requires |mask| == 4 && i < |payload| && k < 8
    ensures Bit(Cipher(payload, mask)[i], k) != Bit(payload[i], k) <==> Bit(mask[i % 4], k) == 1
  {
    hide XorBits, Bit;
    XorBit(payload[i], mask[i % 4], 8, k);
    assert Cipher(payload, mask)[i] == XorByte(payload[i], mask[i % 4]);
  }

  function Cipher(payload: seq<byte>, mask: seq<byte>): (r: seq<byte>)
    requires |mask| == 4
    ensures |r| == |payload|
  {
    seq(|payload|, i requires 0 <= i < |payload| => XorByte(payload[i], mask[i % 4]))
  }

  /** Unmasking with the same key undoes masking. */
  lemma CipherTwice(payload: seq<byte>, mask: seq<byte>)
    requires |mask| == 4
    ensures Cipher(Cipher(payload, mask), mask) == payload
  {
    Pow2Of8();
    forall i | 0 <= i < |payload|
      ensures Cipher(Cipher(payload, mask), mask)[i] == payload[i]
    {
      XorTwice(payload[i], mask[i % 4], 8);
    }
  }

  /** The cipher works in place on the first `len` bytes. */
  method CipherInPlace(a: array<byte>, len: nat, mask: seq<byte>)
    requires len <= a.Length && |mask| == 4
    modifies a
    ensures a[..len] == Cipher(old(a[..len]), mask)
    ensures a[len..] == old(a[len..])
  {
    hide XorByte;
    for i := 0 to len
      invariant forall k :: 0 <= k < i ==> a[k] == XorByte(old(a[k]), mask[k % 4])
      invariant forall k :: i <= k < a.Length ==> a[k] == old(a[k])
    {
      a[i] := XorByte(a[i], mask[i % 4]);
    }
  }
}
