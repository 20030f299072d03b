/** Which buffers CheckRequest can leave waiting for ever, and the buffers it accepts with a wrapped size. */
module Decidability {
  import opened Bytes
  import opened Numerals
  import opened HeaderLines
  import opened RequestCheck
  import opened ExactFraming
  import opened HeaderPrint
  import opened ChunkCodec

  function Filler(n: nat): (s: seq<byte>)
    ensures |s| == n && forall i :: 0 <= i < n ==> s[i] == 65
  {
    seq(n, _ => 65)
  }

  /** A request line with no header line is never decided. */
  lemma BareRequestLineWaits(d: seq<byte>, ext: seq<byte>)
    requires NoHeaderLine(d)
    ensures Check(d + ext) == Incomplete
  {
    FirstTermLocal(d, d + ext, |d|, 0);
    assert (d + ext)[..FirstTerm(d, 0)] == d[..FirstTerm(d, 0)];
  }

  /** Filling up the chunk that has begun and adding the last chunk completes the body. */
  lemma FillChunk(d: seq<byte>, off: nat, size: nat) returns (ext: seq<byte>)
    requires off <= |d| && FirstCrlf(d, off) != -1
    requires ChunkSize(d[off..FirstCrlf(d, off)]) == Number(size) && 0 < size <= MAX_INT - 2
    requires |d| <= FirstCrlf(d, off) + 4 + size
    ensures ScanChunks(d + ext, off).Complete?
  {
    hide ChunkSize, ScanChunks, ChunkStep, FirstCrlf;
    var i := FirstCrlf(d, off);
    var next := i + 4 + size;
    ext := Filler(next - |d|) + EndOf([]);
    var e := d + ext;
    FirstCrlfLocal(d, e, |d|, off);
    assert d[off..i] == e[off..i];
    StepOver(e, off, size);
    AfterStep(e, off);
    assert e[next..next + |EndOf([])|] == EndOf([]);
    LastChunk(e, next, []);
    AfterStep(e, next);
  }

  lemma StepOver(e: seq<byte>, off: nat, size: nat)
    requires off <= |e| && FirstCrlf(e, off) != -1
    requires ChunkSize(e[off..FirstCrlf(e, off)]) == Number(size) && 0 < size <= MAX_INT - 2
    requires FirstCrlf(e, off) + 4 + size <= |e|
    ensures ChunkStep(e, off) == Next(FirstCrlf(e, off) + 4 + size)
  {
    hide ChunkSize;
  }

  /** The last size line is still open: ending it settles what comes next. */
  lemma EndSizeLine(d: seq<byte>, off: nat) returns (ext: seq<byte>)
    requires off <= |d| && FirstCrlf(d, off) == -1
    ensures ScanChunks(d + ext, off) != Incomplete
  {
    hide ChunkSize;
    var e := d + CRLF;
    assert CrlfAt(e, |d|);
    forall j | off <= j < |d|
      ensures !CrlfAt(e, j)
    {
      assert !CrlfAt(d, j);
    }
    assert FirstCrlf(e, off) == |d|;
    var size := ChunkSize(e[off..|d|]);
    if size.Failed? || size.value > MAX_INT - 2 {
      SizeLineIsInt(e[off..|d|]);
      return CRLF;
    }
    SizeLineIsInt(e[off..|d|]);
    if size.value == 0 {
      ext := CRLF + CRLF;
      assert d + ext == e + CRLF;
      FirstCrlfLocal(e, d + ext, |e|, off);
      assert (d + ext)[off..|d|] == e[off..|d|];
      assert CrlfAt(d + ext, |d| + 2);
    } else {
      var more := FillChunk(e, off, size.value);
      ext := CRLF + more;
      assert d + ext == e + more;
    }
  }

  lemma SizeLineIsInt(line: seq<byte>)
    ensures ChunkSize(line).Number? ==> 0 <= ChunkSize(line).value <= MAX_INT
  {
    SizeIsNonNegative(TrimSpace(Before(line, 59)));
  }

  lemma {:induction false} ScanCanFinish(d: seq<byte>, off: nat) returns (ext: seq<byte>)
    requires off <= |d|
    ensures ScanChunks(d + ext, off) != Incomplete
    decreases |d| - off
  {
    hide ChunkStep;
    var step := ChunkStep(d, off);
    if step.Next? {
      ext := ScanCanFinish(d, step.off);
      StepLocal(d, d + ext, |d|, off);
    } else if step.verdict != Incomplete {
      ext := [];
      assert d + ext == d;
    } else {
      ext := OpenStepCanFinish(d, off);
    }
  }

  lemma OpenStepCanFinish(d: seq<byte>, off: nat) returns (ext: seq<byte>)
    requires off <= |d| && ChunkStep(d, off) == Stop(Incomplete)
    ensures ScanChunks(d + ext, off) != Incomplete
  {
    hide ChunkSize;
    var i := FirstCrlf(d, off);
    if i == -1 {
      ext := EndSizeLine(d, off);
    } else {
      var size := ChunkSize(d[off..i]);
      SizeLineIsInt(d[off..i]);
      if size.value == 0 {
        ext := EMPTY_LINE;
        var e := d + ext;
        FirstCrlfLocal(d, e, |d|, off);
        assert e[off..i] == d[off..i];
        assert TermAt(e, |d|);
      } else {
        ext := FillChunk(d, off, size.value);
      }
    }
  }

  /** Every other buffer can still be accepted or rejected. */
  lemma CanBeDecided(d: seq<byte>) returns (ext: seq<byte>)
    requires !NoHeaderLine(d)
    ensures Check(d + ext) != Incomplete
  {
    hide ChunkStep, FramingOf;
    if Check(d) != Incomplete {
      ext := [];
      assert d + ext == d;
    } else if !HeaderFound(d) {
      ext := Filler(MAX_HEADER_SIZE + 1);
      var e := d + ext;
      forall j | 0 <= j
        ensures !TermAt(e, j)
      {
        assert !TermAt(d, j);
      }
    } else {
      var i := FirstTerm(d, 0);
      var f := HeaderFraming(d);
      if f.chunked {
        ext := ScanCanFinish(d, i + 4);
      } else {
        ext := Filler(WrapAdd(i + 4, f.contentLength) - |d|);
      }
      FirstTermLocal(d, d + ext, |d|, 0);
      assert (d + ext)[..i] == d[..i];
    }
  }

  /** A buffer waits for ever, whatever arrives, exactly when its header block is a bare request line. */
  lemma WaitsForEverIff(d: seq<byte>)
    ensures (forall ext: seq<byte> :: Check(d + ext) == Incomplete) <==> NoHeaderLine(d)
  {
    if NoHeaderLine(d) {
      forall ext: seq<byte>
        ensures Check(d + ext) == Incomplete
      {
        BareRequestLineWaits(d, ext);
      }
    } else {
      var ext := CanBeDecided(d);
    }
  }

  // ----- concrete buffers for the two failing cases

  /** "A" CRLF CRLF: a request line and nothing else. */
  lemma BareExample()
    ensures NoHeaderLine([65] + EMPTY_LINE)
  {
    var d: seq<byte> := [65] + EMPTY_LINE;
    assert TermAt(d, 1);
    assert d[..1] == [65];
  }

  /** "A" CRLF "Content-Length:" 9223372036854775807 CRLF CRLF. */
  function WrapBuffer(): seq<byte>
  {
    Join([[65], CONTENT_LENGTH + NumeralOf(MAX_INT, 10)]) + CRLF + []
  }

  /** It is accepted with a negative size. */
  lemma WrapExample()
    ensures Check(WrapBuffer()).Complete? && Check(WrapBuffer()).bytes < 0 && LengthWraps(WrapBuffer())
  {
    hide FirstCrlf, FirstTerm, Check, EffectOf, LengthWraps, ScanChunks, NumeralOf;
    var line := CONTENT_LENGTH + NumeralOf(MAX_INT, 10);
    var lines: seq<seq<byte>> := [[65], line];
    DeclaredLength(MAX_INT);
    assert Power10(6) == 1_000_000;
    assert Power10(12) == 1_000_000_000_000;
    assert Power10(19) == 10_000_000_000_000_000_000;
    NumeralIsShort(MAX_INT, 19);
    assert Join([line]) == line + CRLF + Join([line][1..]);
    assert lines[1..] == [line];
    assert Join(lines) == [65] + CRLF + Join([line]);
    OneByteIsClean();
    PrintedHead(lines, []);
    FoldOne(line, MAX_INT);
    SizeIsInTheBuffer(WrapBuffer());
  }

  /** "A" CRLF, a header line of 8187 bytes, and three bytes of the CRLF CRLF that ends the block. */
  function WindowBuffer(): seq<byte>
  {
    [65] + CRLF + Filler(8187) + CRLF + [CR]
  }

  /** It is rejected; with its last byte it is accepted. */
  lemma WindowExample()
    ensures Check(WindowBuffer()) == Rejected(ErrRange) && CutInEmptyLine(WindowBuffer())
    ensures Check(WindowBuffer() + [LF]) == Complete(8194)
  {
    hide FirstTerm, FirstCrlf, Check, Filler, CutInEmptyLine;
    var line := Filler(8187);
    var lines: seq<seq<byte>> := [[65], line];
    var d := WindowBuffer();
    assert d + [LF] == Join(lines) + CRLF + [] by {
      assert Join([line]) == line + CRLF + Join([line][1..]);
      assert Join(lines) == [65] + CRLF + Join(lines[1..]);
      assert lines[1..] == [line];
    }
    assert |Join(lines)| == 8192;
    OneByteIsClean();
    WithoutCr(line);
    assert AllClean(lines);
    PrintedHead(lines, []);
    FillerIsIgnored(8187);
    assert lines[1..] == [line];
    WindowIsRejected(d);
    RejectionIsFinalIff(d);
    assert Check(d + [LF]) != Check(d);
  }

  lemma FillerIsIgnored(n: nat)
    ensures FoldLines([Filler(n)], -1, false) == Body(-1, false)
  {
    var line: seq<byte> := Filler(n);
    assert n >= 15 ==> Lower(line[..15][0]) != Lower(CONTENT_LENGTH[0]);
    assert n >= 18 ==> Lower(line[..18][0]) != Lower(TRANSFER_ENCODING[0]);
    assert !StartsFold(line, CONTENT_LENGTH) && !StartsFold(line, TRANSFER_ENCODING);
    var rest: seq<seq<byte>> := [line][1..];
    assert rest == [];
    assert FoldLines([], -1, false) == Body(-1, false);
  }

  lemma WindowIsRejected(d: seq<byte>)
    requires |d| > MAX_HEADER_SIZE && FirstTerm(d + [LF], 0) == |d| - 3
    ensures Check(d) == Rejected(ErrRange)
  {
    if FirstTerm(d, 0) != -1 {
      FirstTermLocal(d, d + [LF], |d|, 0);
    }
  }

  lemma FoldOne(line: seq<byte>, n: nat)
    requires EffectOf(line) == SetsLength(n)
    ensures FoldLines([line], -1, false) == Body(n, false)
  {
    hide EffectOf;
    var rest := [line][1..];
    assert rest == [];
    assert FoldLines(rest, n, false) == Body(n, false);
  }

  lemma OneByteIsClean()
    ensures CleanLine([65])
  {
  }

  /** The Content-Length line that states n. */
  lemma DeclaredLength(n: nat)
    requires n <= MAX_INT
    ensures EffectOf(CONTENT_LENGTH + NumeralOf(n, 10)) == SetsLength(n)
    ensures CleanLine(CONTENT_LENGTH + NumeralOf(n, 10))
  {
    hide ParseDigits, TrimSpace;
    var digits := NumeralOf(n, 10);
    var line := CONTENT_LENGTH + digits;
    NumeralRoundTrip(n, 10);
    NumeralsArePlain(digits, 10);
    assert line[..|CONTENT_LENGTH|] == CONTENT_LENGTH && line[|CONTENT_LENGTH|..] == digits;
    assert DigitOf(digits[0], 10) >= 0;
    assert CR !in CONTENT_LENGTH;
    WithoutCr(line);
  }

  lemma {:induction false} NumeralIsShort(n: nat, k: nat)
    requires k >= 1 && n < Power10(k)
    ensures |NumeralOf(n, 10)| <= k
    decreases k
  {
    if n >= 10 {
      NumeralIsShort(n / 10, k - 1);
    }
  }

  function Power10(k: nat): nat
  {
    if k == 0 then 1 else 10 * Power10(k - 1)
  }
}
