/** Byte strings and the few searches the code makes on them.

    A Go `[]byte` that is only read is a `seq<byte>`.  Library calls are written out for ASCII:
    `bytes.Index` for the two needles CRLF and CRLF CRLF, `bytes.EqualFold`, `bytes.TrimSpace`. */
module Bytes {

  type byte = b: int | 0 <= b < 256

  const CR: byte := 13
  const LF: byte := 10
  const CRLF: seq<byte> := [CR, LF]

  /** The largest Go `int` on a 64-bit machine. */
  const MAX_INT := 0x7FFF_FFFF_FFFF_FFFF

  /** The Go sum of two `int`s of which the first is not negative: it wraps at 2^63. */
  function WrapAdd(a: nat, b: int): int
  {
    if a + b > MAX_INT then a + b - 0x1_0000_0000_0000_0000 else a + b
  }

  // ----- searching

  predicate CrlfAt(d: seq<byte>, i: int)
  {
    0 <= i && i + 1 < |d| && d[i] == CR && d[i + 1] == LF
  }

  /** An empty line: CRLF CRLF at position i. */
  predicate TermAt(d: seq<byte>, i: int)
  {
    CrlfAt(d, i) && CrlfAt(d, i + 2)
  }

  /** First CRLF at or after `from`, or -1. */
  function FirstCrlf(d: seq<byte>, from: nat): (r: int)
    ensures r == -1 ==> forall j :: from <= j ==> !CrlfAt(d, j)
    ensures r != -1 ==> from <= r && CrlfAt(d, r) && forall j :: from <= j < r ==> !CrlfAt(d, j)
    decreases |d| - from
  {
    if from + 1 >= |d| then -1
    else if CrlfAt(d, from) then from
    else FirstCrlf(d, from + 1)
  }

  /** First CRLF CRLF at or after `from`, or -1. */
  function FirstTerm(d: seq<byte>, from: nat): (r: int)
    ensures r == -1 ==> forall j :: from <= j ==> !TermAt(d, j)
    ensures r != -1 ==> from <= r && TermAt(d, r) && forall j :: from <= j < r ==> !TermAt(d, j)
    decreases |d| - from
  {
    if from + 3 >= |d| then -1
    else if TermAt(d, from) then from
    else FirstTerm(d, from + 1)
  }

  /** Searching a slice is searching the whole from the slice's start. */
  lemma FirstCrlfInSlice(d: seq<byte>, lo: nat)
    requires lo <= |d|
    ensures FirstCrlf(d, lo) == if FirstCrlf(d[lo..], 0) == -1 then -1 else lo + FirstCrlf(d[lo..], 0)
  {
    var s := d[lo..];
    assert forall j :: 0 <= j ==> CrlfAt(s, j) == CrlfAt(d, lo + j);
    var a, b := FirstCrlf(s, 0), FirstCrlf(d, lo);
    if b != -1 {
      assert CrlfAt(s, b - lo);
    }
  }

  lemma FirstTermInSlice(d: seq<byte>, lo: nat)
    requires lo <= |d|
    ensures FirstTerm(d, lo) == if FirstTerm(d[lo..], 0) == -1 then -1 else lo + FirstTerm(d[lo..], 0)
  {
    var s := d[lo..];
    assert forall j :: 0 <= j ==> TermAt(s, j) == TermAt(d, lo + j);
    var a, b := FirstTerm(s, 0), FirstTerm(d, lo);
    if b != -1 {
      assert TermAt(s, b - lo);
    }
  }

  /** `a` and `b` have the same first n bytes. */
  ghost predicate Agree(a: seq<byte>, b: seq<byte>, n: int)
  {
    n <= |a| && n <= |b| && forall i :: 0 <= i < n ==> a[i] == b[i]
  }

  /** A found CRLF depends only on the bytes up to its end. */
  lemma FirstCrlfLocal(a: seq<byte>, b: seq<byte>, n: nat, from: nat)
    requires Agree(a, b, n) && FirstCrlf(a, from) != -1 && FirstCrlf(a, from) + 2 <= n
    ensures FirstCrlf(b, from) == FirstCrlf(a, from)
  {
    var r := FirstCrlf(a, from);
    assert CrlfAt(b, r);
    forall j | from <= j < r
      ensures !CrlfAt(b, j)
    {
      assert !CrlfAt(a, j);
    }
  }

  lemma FirstTermLocal(a: seq<byte>, b: seq<byte>, n: nat, from: nat)
    requires Agree(a, b, n) && FirstTerm(a, from) != -1 && FirstTerm(a, from) + 4 <= n
    ensures FirstTerm(b, from) == FirstTerm(a, from)
  {
    var r := FirstTerm(a, from);
    assert TermAt(b, r);
    forall j | from <= j < r
      ensures !TermAt(b, j)
    {
      assert !TermAt(a, j);
    }
  }

  lemma SliceOfSlice(d: seq<byte>, lo: nat, hi: nat, a: nat, b: nat)
    requires lo <= hi <= |d| && a <= b <= hi - lo
    ensures d[lo..hi][a..b] == d[lo + a..lo + b]
  {
    assert forall i :: 0 <= i < b - a ==> d[lo..hi][a..b][i] == d[lo + a..lo + b][i];
  }

  function Concat(parts: seq<seq<byte>>): seq<byte>
  {
    if parts == [] then [] else parts[0] + Concat(parts[1..])
  }

  // ----- ASCII folding and trimming

  function Lower(c: byte): byte
  {
    if 65 <= c <= 90 then c + 32 else c
  }

  predicate EqualFold(a: seq<byte>, b: seq<byte>)
  {
    |a| == |b| && forall i :: 0 <= i < |a| ==> Lower(a[i]) == Lower(b[i])
  }

  /** `needle`, which is lower case, occurs in `s` at position i in any case. */
  predicate FoldedAt(s: seq<byte>, needle: seq<byte>, i: int)
  {
    0 <= i && i + |needle| <= |s| && forall j :: 0 <= j < |needle| ==> Lower(s[i + j]) == needle[j]
  }

  ghost predicate ContainsFold(s: seq<byte>, needle: seq<byte>)
  {
    exists i :: FoldedAt(s, needle, i)
  }

  /** containsCaseInsensitive: both loops of the source. */
  method ContainsCaseInsensitive(s: seq<byte>, needle: seq<byte>) returns (found: bool)
    ensures found <==> ContainsFold(s, needle)
  {
    if |needle| == 0 {
      assert FoldedAt(s, needle, 0);
      return true;
    }
    if |s| < |needle| {
      return false;
    }
    var i := 0;
    while i <= |s| - |needle|
      invariant 0 <= i <= |s| - |needle| + 1
      invariant forall k :: 0 <= k < i ==> !FoldedAt(s, needle, k)
    {
      var same := true;
      var j := 0;
      while j < |needle|
        invariant 0 <= j <= |needle| && same
        invariant forall k :: 0 <= k < j ==> Lower(s[i + k]) == needle[k]
      {
        if Lower(s[i + j]) != needle[j] {
          same := false;
          break;
        }
        j := j + 1;
      }
      if same {
        assert FoldedAt(s, needle, i);
        return true;
      }
      i := i + 1;
    }
    return false;
  }

  predicate IsSpace(c: byte)
  {
    9 <= c <= 13 || c == 32
  }

  function TrimLeft(s: seq<byte>): (r: seq<byte>)
    ensures |r| <= |s| && r == s[|s| - |r|..]
    ensures r != [] ==> !IsSpace(r[0])
    ensures forall i :: 0 <= i < |s| - |r| ==> IsSpace(s[i])
  {
    if s != [] && IsSpace(s[0]) then TrimLeft(s[1..]) else s
  }

  function TrimRight(s: seq<byte>): (r: seq<byte>)
    ensures |r| <= |s| && r == s[..|r|]
    ensures r != [] ==> !IsSpace(r[|r| - 1])
    ensures forall i :: |r| <= i < |s| ==> IsSpace(s[i])
  {
    if s != [] && IsSpace(s[|s| - 1]) then TrimRight(s[..|s| - 1]) else s
  }

  /** bytes.TrimSpace on ASCII. */
  function TrimSpace(s: seq<byte>): seq<byte>
  {
    TrimRight(TrimLeft(s))
  }

  /** The part of `s` before the first `c`, all of it when there is none. */
  function Before(s: seq<byte>, c: byte): (r: seq<byte>)
    ensures r <= s && c !in r
    ensures |r| < |s| ==> s[|r|] == c
  {
    if s == [] || s[0] == c then [] else [s[0]] + Before(s[1..], c)
  }

  lemma {:induction false} BeforeAbsent(s: seq<byte>, c: byte)
    requires c !in s
    ensures Before(s, c) == s
  {
    if s != [] {
      BeforeAbsent(s[1..], c);
    }
  }

  lemma TrimPlain(s: seq<byte>)
    requires forall i :: 0 <= i < |s| ==> !IsSpace(s[i])
    ensures TrimSpace(s) == s
  {
    if s != [] {
      assert !IsSpace(s[0]) && !IsSpace(s[|s| - 1]);
    }
  }

  predicate Blank(s: seq<byte>)
  {
    forall i :: 0 <= i < |s| ==> IsSpace(s[i])
  }

  /** Neither end is white space. */
  predicate Tight(s: seq<byte>)
  {
    s != [] ==> !IsSpace(s[0]) && !IsSpace(s[|s| - 1])
  }

  /** White space around a text, as much of it as there is, is what trimming takes off. */
  lemma TrimAround(left: seq<byte>, s: seq<byte>, right: seq<byte>)
    requires Blank(left) && Tight(s) && Blank(right)
    ensures TrimSpace(left + s + right) == s
  {
    hide TrimLeft, TrimRight;
    var all := left + s + right;
    var l := TrimLeft(all);
    if s != [] {
      assert all[|left|] == s[0];
      assert |all| - |l| == |left|;
      assert l == s + right;
      var t := TrimRight(l);
      assert l[|s| - 1] == s[|s| - 1];
      assert |t| == |s|;
    } else {
      assert forall i :: 0 <= i < |all| ==> IsSpace(all[i]);
    }
  }

  /** And every text is its trimmed self with white space around it. */
  lemma TrimSplits(s: seq<byte>) returns (left: seq<byte>, right: seq<byte>)
    ensures s == left + TrimSpace(s) + right && Blank(left) && Blank(right) && Tight(TrimSpace(s))
  {
    hide TrimLeft, TrimRight;
    var l := TrimLeft(s);
    var t := TrimRight(l);
    left, right := s[..|s| - |l|], l[|t|..];
    assert l == t + right;
    assert s == left + l;
  }

  /** The sum differs from the mathematical one by a multiple of 2^64 and is an int. */
  lemma WrapIsModular(a: nat, b: int)
    requires a <= MAX_INT && -0x8000_0000_0000_0000 <= b <= MAX_INT
    ensures -0x8000_0000_0000_0000 <= WrapAdd(a, b) <= 0x7FFF_FFFF_FFFF_FFFF
    ensures (WrapAdd(a, b) - (a + b)) % 0x1_0000_0000_0000_0000 == 0
  {
  }

  /** The bytes of a text. */
  function Ascii(text: string): (s: seq<byte>)
    requires forall i :: 0 <= i < |text| ==> text[i] as int < 256
    ensures |s| == |text| && forall i :: 0 <= i < |s| ==> s[i] == text[i] as int
  {
    seq(|text|, i requires 0 <= i < |text| => text[i] as int)
  }
}
