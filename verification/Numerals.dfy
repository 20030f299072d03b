/** parseInt and parseHexInt of pkg/engine/parser/parser.go, and the hexadecimal printer
    (strconv.AppendInt) that pkg/adaptor/adaptor.go uses for chunk sizes. */
module Numerals {
  import opened Bytes

  datatype ParseError = ErrRange | ErrSyntax

  datatype Parsed = Number(value: int) | Failed(error: ParseError)

  /** The value of a digit, or -1. */
  function DigitOf(c: byte, base: int): int
  {
    if 48 <= c <= 57 then c - 48
    else if base == 16 && 97 <= c <= 102 then c - 87
    else if base == 16 && 65 <= c <= 70 then c - 55
    else -1
  }

  predicate AllDigits(s: seq<byte>, base: int)
  {
    forall i :: 0 <= i < |s| ==> DigitOf(s[i], base) >= 0
  }

  /** Positional value of a digit string. */
  function Value(s: seq<byte>, base: nat): nat
    requires AllDigits(s, base)
  {
    if s == [] then 0 else Value(s[..|s| - 1], base) * base + DigitOf(s[|s| - 1], base)
  }

  /** Reading left to right, a range error is seen as soon as a digit prefix is too large. */
  ghost predicate OverflowsAt(s: seq<byte>, base: nat, k: int)
  {
    0 <= k <= |s| && AllDigits(s[..k], base) && Value(s[..k], base) > MAX_INT
  }

  /** What an unsigned numeral means: the first of the two errors met from the left wins. */
  ghost function ParseDigits(s: seq<byte>, base: nat): Parsed
  {
    if s == [] then Failed(ErrSyntax)
    else if exists k :: OverflowsAt(s, base, k) then Failed(ErrRange)
    else if AllDigits(s, base) then Number(Value(s, base))
    else Failed(ErrSyntax)
  }

  /** An optional sign in front of a decimal numeral. */
  ghost function ParseSigned(s: seq<byte>): Parsed
  {
    if s != [] && s[0] == 45 then
      match ParseDigits(s[1..], 10)
      case Number(n) => Number(-n)
      case Failed(e) => Failed(e)
    else if s != [] && s[0] == 43 then ParseDigits(s[1..], 10)
    else ParseDigits(s, 10)
  }

  lemma {:induction false} PrefixIsSmaller(s: seq<byte>, base: nat, k: nat)
    requires base >= 1 && k <= |s| && AllDigits(s, base)
    ensures AllDigits(s[..k], base) && Value(s[..k], base) <= Value(s, base)
    decreases |s|
  {
    if k == |s| {
      assert s[..k] == s;
    } else {
      var t := s[..|s| - 1];
      assert t[..k] == s[..k];
      PrefixIsSmaller(t, base, k);
      MulAtLeast(Value(t, base), base);
    }
  }

  lemma MulAtLeast(a: nat, b: nat)
    requires b >= 1
    ensures a <= a * b
  {
  }

  /** A numeral is accepted exactly when it is non-empty, all digits, and within an int64. */
  lemma ParsesExactly(s: seq<byte>, base: nat)
    requires base >= 1
    ensures ParseDigits(s, base).Number? <==> s != [] && AllDigits(s, base) && Value(s, base) <= MAX_INT
    ensures ParseDigits(s, base).Number? ==> ParseDigits(s, base).value == Value(s, base)
  {
    if AllDigits(s, base) {
      assert s[..|s|] == s;
      if Value(s, base) > MAX_INT {
        assert OverflowsAt(s, base, |s|);
      } else {
        forall k | 0 <= k <= |s|
          ensures !OverflowsAt(s, base, k)
        {
          PrefixIsSmaller(s, base, k);
        }
      }
    }
  }

  /** One step of either accumulator loop: the check before the multiplication is exact. */
  lemma DigitStep(s: seq<byte>, base: nat, i: nat)
    requires i < |s| && AllDigits(s[..i], base) && DigitOf(s[i], base) >= 0
    ensures AllDigits(s[..i + 1], base)
    ensures Value(s[..i + 1], base) == Value(s[..i], base) * base + DigitOf(s[i], base)
  {
    assert s[..i + 1][..i] == s[..i];
  }

  /** What the loop has read so far contains no range error. */
  lemma NoOverflowSoFar(s: seq<byte>, base: nat, i: nat)
    requires base >= 1 && i <= |s| && AllDigits(s[..i], base) && Value(s[..i], base) <= MAX_INT
    ensures forall k :: 0 <= k <= i ==> !OverflowsAt(s, base, k)
  {
    forall k | 0 <= k <= i
      ensures !OverflowsAt(s, base, k)
    {
      PrefixIsSmaller(s[..i], base, k);
      assert s[..i][..k] == s[..k];
    }
  }

  lemma BadDigit(s: seq<byte>, base: nat, i: nat)
    requires base >= 1 && i < |s| && AllDigits(s[..i], base) && Value(s[..i], base) <= MAX_INT
    requires DigitOf(s[i], base) < 0
    ensures ParseDigits(s, base) == Failed(ErrSyntax)
  {
    NoOverflowSoFar(s, base, i);
    forall k | i < k <= |s|
      ensures !OverflowsAt(s, base, k)
    {
      assert s[..k][i] == s[i];
    }
  }

  /** The accumulator loop shared by both parsers; it is written out in each of them in the source. */
  method ParseUnsigned(b: seq<byte>, base: nat) returns (r: Parsed)
    requires base == 10 || base == 16
    ensures r == ParseDigits(b, base)
  {
    if |b| == 0 {
      return Failed(ErrSyntax);
    }
    var n := 0;
    for i := 0 to |b|
      invariant AllDigits(b[..i], base) && n == Value(b[..i], base) && n <= MAX_INT
    {
      var digit := DigitOf(b[i], base);
      if digit < 0 {
        BadDigit(b, base, i);
        return Failed(ErrSyntax);
      }
      DigitStep(b, base, i);
      if n > (MAX_INT - digit) / base {
        assert OverflowsAt(b, base, i + 1);
        return Failed(ErrRange);
      }
      n := n * base + digit;
    }
    assert b[..|b|] == b;
    NoOverflowSoFar(b, base, |b|);
    return Number(n);
  }

  method ParseInt(b: seq<byte>) returns (r: Parsed)
    ensures r == ParseSigned(b)
  {
    if |b| == 0 {
      return Failed(ErrSyntax);
    }
    var neg := false;
    var digits := b;
    if b[0] == 45 {
      neg := true;
      digits := b[1..];
    } else if b[0] == 43 {
      digits := b[1..];
    }
    r := ParseUnsigned(digits, 10);
    if neg && r.Number? {
      r := Number(-r.value);
    }
  }

  method ParseHexInt(b: seq<byte>) returns (r: Parsed)
    ensures r == ParseDigits(b, 16)
  {
    r := ParseUnsigned(b, 16);
  }

  // ----- printing

  function DigitChar(d: int): byte
    requires 0 <= d < 16
  {
    if d < 10 then 48 + d else 87 + d
  }

  /** strconv.AppendInt(_, n, base) for n >= 0. */
  function NumeralOf(n: nat, base: nat): (s: seq<byte>)
    requires base == 10 || base == 16
    ensures s != []
    decreases n
  {
    if n < base then [DigitChar(n)] else NumeralOf(n / base, base) + [DigitChar(n % base)]
  }

  /** Printing then reading a number gives it back, for every number an int64 can hold. */
  lemma {:induction false} NumeralRoundTrip(n: nat, base: nat)
    requires base == 10 || base == 16
    ensures AllDigits(NumeralOf(n, base), base) && Value(NumeralOf(n, base), base) == n
    ensures n <= MAX_INT ==> ParseDigits(NumeralOf(n, base), base) == Number(n)
    decreases n
  {
    var s := NumeralOf(n, base);
    if n >= base {
      NumeralRoundTrip(n / base, base);
      assert s[..|s| - 1] == NumeralOf(n / base, base);
      assert s[|s| - 1] == DigitChar(n % base);
    } else {
      assert s[..|s| - 1] == [];
    }
    ParsesExactly(s, base);
  }

  /** A printed number has no byte that the scanners cut at. */
  lemma NumeralsArePlain(s: seq<byte>, base: nat)
    requires AllDigits(s, base)
    ensures TrimSpace(s) == s && Before(s, 59) == s && CR !in s && LF !in s
  {
    hide TrimSpace;
    TrimPlain(s);
    assert 59 !in s;
    BeforeAbsent(s, 59);
  }
}
