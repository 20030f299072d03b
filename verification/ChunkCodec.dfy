/** The chunk printer of pkg/adaptor/adaptor.go and the chunk scanner of pkg/engine/parser/parser.go
    undo each other. */
module ChunkCodec {
  import opened Bytes
  import opened Numerals
  import opened RequestCheck
  import opened HeaderPrint

  const LAST_CHUNK: seq<byte> := [48, 13, 10]

  /** One chunk as Write, WriteString and ReadFrom print it. */
  function ChunkOf(p: seq<byte>): seq<byte>
  {
    NumeralOf(|p|, 16) + CRLF + p + CRLF
  }

  function ChunksOf(parts: seq<seq<byte>>): seq<byte>
  {
    if parts == [] then [] else ChunkOf(parts[0]) + ChunksOf(parts[1..])
  }

  /** The end EndResponse prints: the last chunk, the trailer lines, an empty line. */
  function EndOf(trailers: seq<seq<byte>>): seq<byte>
  {
    LAST_CHUNK + Join(trailers) + CRLF
  }

  /** The bytes the scanner skips as chunk data. */
  ghost function Payload(d: seq<byte>, off: nat): seq<byte>
    requires off <= |d|
    decreases |d| - off
  {
    var step := ChunkStep(d, off);
    if step.Stop? then [] else
      ChunkStepData(d, off);
      d[FirstCrlf(d, off) + 2..step.off - 2] + Payload(d, step.off)
  }

  lemma ChunkStepData(d: seq<byte>, off: nat)
    requires off <= |d| && ChunkStep(d, off).Next?
    ensures 0 <= FirstCrlf(d, off) + 2 <= ChunkStep(d, off).off - 2 <= |d|
  {
    hide ParseDigits, TrimSpace, Before;
  }

  /** `t` is written in d at position `at`. */
  ghost predicate WrittenAt(d: seq<byte>, at: nat, t: seq<byte>)
  {
    at + |t| <= |d| && d[at..at + |t|] == t
  }

  lemma WrittenSplit(d: seq<byte>, at: nat, a: seq<byte>, b: seq<byte>)
    requires WrittenAt(d, at, a + b)
    ensures WrittenAt(d, at, a) && WrittenAt(d, at + |a|, b) && at + |a| <= |d|
  {
    SliceOfSlice(d, at, at + |a + b|, 0, |a|);
    SliceOfSlice(d, at, at + |a + b|, |a|, |a| + |b|);
    assert (a + b)[..|a|] == a && (a + b)[|a|..] == b;
  }

  // ----- chunks as the scanner takes them

  /** A size line as it can be written: white space, hexadecimal digits in either case, white space, and an extension
      that begins with a semicolon. */
  datatype SizeText = SizeText(left: seq<byte>, digits: seq<byte>, right: seq<byte>, extension: seq<byte>)

  function TextOf(s: SizeText): seq<byte>
  {
    s.left + s.digits + s.right + s.extension
  }

  ghost predicate GoodSize(s: SizeText)
  {
    && Blank(s.left) && Blank(s.right)
    && s.digits != [] && AllDigits(s.digits, 16)
    && (s.extension == [] || s.extension[0] == ';' as int)
    && FirstCrlf(TextOf(s), 0) == -1
  }

  lemma DigitsAreTight(digits: seq<byte>)
    requires digits != [] && AllDigits(digits, 16)
    ensures Tight(digits) && 59 !in digits
  {
    assert DigitOf(digits[0], 16) >= 0 && DigitOf(digits[|digits| - 1], 16) >= 0;
  }

  /** The part before the extension. */
  lemma {:induction false} BeforeExtension(s: seq<byte>, extension: seq<byte>)
    requires 59 !in s && (extension == [] || extension[0] == 59)
    ensures Before(s + extension, 59) == s
    decreases |s|
  {
    if s == [] {
      assert s + extension == extension;
    } else {
      assert s[0] in s;
      assert (s + extension)[1..] == s[1..] + extension;
      BeforeExtension(s[1..], extension);
    }
  }

  lemma BlankHasNoSemicolon(s: seq<byte>)
    requires Blank(s)
    ensures 59 !in s
  {
  }

  /** A size line reads as the number its digits write, if an int64 holds that. */
  lemma SizeMeaning(s: SizeText)
    requires GoodSize(s)
    ensures ChunkSize(TextOf(s)) ==
            if Value(s.digits, 16) <= MAX_INT then Number(Value(s.digits, 16)) else Failed(ErrRange)
  {
    hide TrimSpace, Before, FirstCrlf;
    var t := s.left + s.digits + s.right;
    DigitsAreTight(s.digits);
    BlankHasNoSemicolon(s.left);
    BlankHasNoSemicolon(s.right);
    assert TextOf(s) == t + s.extension;
    BeforeExtension(t, s.extension);
    TrimAround(s.left, s.digits, s.right);
    ParsesExactly(s.digits, 16);
    if Value(s.digits, 16) > MAX_INT {
      assert s.digits[..|s.digits|] == s.digits;
      assert OverflowsAt(s.digits, 16, |s.digits|);
    }
  }

  /** And nothing else does. */
  lemma SizeIsReadIff(line: seq<byte>, n: nat)
    requires FirstCrlf(line, 0) == -1
    ensures ChunkSize(line) == Number(n)
       <==> n <= MAX_INT && exists s: SizeText :: GoodSize(s) && TextOf(s) == line && Value(s.digits, 16) == n
  {
    hide TrimSpace, Before, FirstCrlf, ParseDigits;
    if ChunkSize(line) == Number(n) {
      var core := Before(line, 59);
      var left, right := TrimSplits(core);
      var s := SizeText(left, TrimSpace(core), right, line[|core|..]);
      ParsesExactly(s.digits, 16);
      assert TextOf(s) == line;
      assert GoodSize(s);
    }
    if n <= MAX_INT && exists s: SizeText :: GoodSize(s) && TextOf(s) == line && Value(s.digits, 16) == n {
      var s: SizeText :| GoodSize(s) && TextOf(s) == line && Value(s.digits, 16) == n;
      SizeMeaning(s);
    }
  }

  /** Where the scanner finds a size line. */
  lemma SizeLine(d: seq<byte>, off: nat, s: SizeText)
    requires GoodSize(s) && WrittenAt(d, off, TextOf(s) + CRLF)
    ensures FirstCrlf(d, off) == off + |TextOf(s)| && d[off..FirstCrlf(d, off)] == TextOf(s)
  {
    hide FirstCrlf, TextOf;
    var text := TextOf(s);
    var rest := d[off + |text| + 2..];
    assert d[off..] == d[off..off + |text| + 2] + rest;
    assert d[off..] == text + CRLF + rest;
    LineEnds(text, rest);
    FirstCrlfInSlice(d, off);
    assert d[off..][..|text|] == text;
  }

  /** One chunk: a size line, its line end, the data, and the two bytes after it, which the scanner does not look
      at. */
  datatype Chunk = Chunk(size: SizeText, data: seq<byte>, end: seq<byte>)

  function ChunkText(c: Chunk): seq<byte>
  {
    TextOf(c.size) + CRLF + c.data + c.end
  }

  ghost predicate GoodChunk(c: Chunk)
  {
    && GoodSize(c.size) && Value(c.size.digits, 16) == |c.data| && 0 < |c.data| <= MAX_INT - 2
    && |c.end| == 2
  }

  lemma OneChunk(d: seq<byte>, off: nat, c: Chunk)
    requires GoodChunk(c) && WrittenAt(d, off, ChunkText(c))
    ensures ChunkStep(d, off) == Next(off + |ChunkText(c)|)
    ensures 0 <= FirstCrlf(d, off) + 2 <= off + |ChunkText(c)| - 2 <= |d|
    ensures d[FirstCrlf(d, off) + 2..off + |ChunkText(c)| - 2] == c.data
  {
    hide ChunkSize, FirstCrlf, TextOf, GoodSize;
    var text := TextOf(c.size);
    assert ChunkText(c) == (text + CRLF) + (c.data + c.end);
    WrittenSplit(d, off, text + CRLF, c.data + c.end);
    WrittenSplit(d, off + |text| + 2, c.data, c.end);
    SizeLine(d, off, c.size);
    SizeMeaning(c.size);
  }

  /** A chunk whose size, with its line end, no int holds is out of range. */
  lemma TooLargeChunk(d: seq<byte>, off: nat, s: SizeText)
    requires GoodSize(s) && Value(s.digits, 16) > MAX_INT - 2 && WrittenAt(d, off, TextOf(s) + CRLF)
    ensures ChunkStep(d, off) == Stop(Rejected(ErrRange))
  {
    hide ChunkSize, FirstCrlf, TextOf, GoodSize;
    SizeLine(d, off, s);
    SizeMeaning(s);
  }

  /** After the zero chunk, the scanner finds the end of the printed trailer section. */
  lemma TrailersEnd(d: seq<byte>, p: nat, trailers: seq<seq<byte>>)
    requires WrittenAt(d, p, Join(trailers) + CRLF) && AllClean(trailers)
    ensures AfterLastChunk(d, p) == Complete(p + |Join(trailers) + CRLF|)
  {
    hide FirstCrlf, FirstTerm;
    var w := Join(trailers) + CRLF;
    if trailers == [] {
      assert w == CRLF;
      assert d[p..p + 2][0] == CR && d[p..p + 2][1] == LF;
      assert CrlfAt(d, p);
    } else {
      var rest := d[p + |w|..];
      var l := trailers[0];
      assert CleanLine(l);
      assert d[p..] == d[p..p + |w|] + rest == w + rest;
      BlockEnds(trailers, rest);
      FirstTermInSlice(d, p);
      assert w + rest == l + CRLF + (Join(trailers[1..]) + CRLF + rest);
      LineEnds(l, Join(trailers[1..]) + CRLF + rest);
      assert !CrlfAt(d[p..], 0);
      assert !CrlfAt(d, p);
    }
  }

  function LastText(s: SizeText, trailers: seq<seq<byte>>): seq<byte>
  {
    TextOf(s) + CRLF + (Join(trailers) + CRLF)
  }

  /** A size of zero, in any spelling, ends the body after its trailer section. */
  lemma AnyLastChunk(d: seq<byte>, off: nat, s: SizeText, trailers: seq<seq<byte>>)
    requires GoodSize(s) && Value(s.digits, 16) == 0 && WrittenAt(d, off, LastText(s, trailers)) && AllClean(trailers)
    ensures ChunkStep(d, off) == Stop(Complete(off + |LastText(s, trailers)|))
  {
    hide ChunkSize, FirstCrlf, AfterLastChunk, Join, AllClean, WrittenAt, TextOf, GoodSize;
    WrittenSplit(d, off, TextOf(s) + CRLF, Join(trailers) + CRLF);
    SizeLine(d, off, s);
    SizeMeaning(s);
    TrailersEnd(d, off + |TextOf(s)| + 2, trailers);
  }

  lemma AfterStep(d: seq<byte>, off: nat)
    requires off <= |d|
    ensures match ChunkStep(d, off)
            case Stop(v) => ScanChunks(d, off) == v && Payload(d, off) == []
            case Next(o) =>
              && ScanChunks(d, off) == ScanChunks(d, o)
              && 0 <= FirstCrlf(d, off) + 2 <= o - 2
              && Payload(d, off) == d[FirstCrlf(d, off) + 2..o - 2] + Payload(d, o)
  {
    hide ChunkStep;
    if ChunkStep(d, off).Next? {
      ChunkStepData(d, off);
    }
  }

  function ChunkTexts(chunks: seq<Chunk>): seq<byte>
  {
    if chunks == [] then [] else ChunkText(chunks[0]) + ChunkTexts(chunks[1..])
  }

  function DataOf(chunks: seq<Chunk>): seq<byte>
  {
    if chunks == [] then [] else chunks[0].data + DataOf(chunks[1..])
  }

  ghost predicate GoodChunks(chunks: seq<Chunk>)
  {
    forall i :: 0 <= i < |chunks| ==> GoodChunk(chunks[i])
  }

  lemma FirstChunk(chunks: seq<Chunk>, end: seq<byte>)
    requires GoodChunks(chunks) && chunks != []
    ensures GoodChunk(chunks[0]) && GoodChunks(chunks[1..])
    ensures ChunkTexts(chunks) + end == ChunkText(chunks[0]) + (ChunkTexts(chunks[1..]) + end)
    ensures DataOf(chunks) == chunks[0].data + DataOf(chunks[1..])
  {
    assert forall i :: 0 <= i < |chunks| - 1 ==> chunks[1..][i] == chunks[i + 1];
  }

  lemma NoChunks(end: seq<byte>)
    ensures ChunkTexts([]) + end == end && DataOf([]) == []
  {
  }

  /** Any chunked body: the scanner accepts it exactly at its last byte, and the data it skips is that of the chunks,
      in order - CRLF CRLF or another body's end included. */
  lemma {:induction false} AnyBodyScans(d: seq<byte>, off: nat, chunks: seq<Chunk>, last: SizeText,
                                        trailers: seq<seq<byte>>)
    requires off <= |d| && WrittenAt(d, off, ChunkTexts(chunks) + LastText(last, trailers))
    requires GoodChunks(chunks) && GoodSize(last) && Value(last.digits, 16) == 0 && AllClean(trailers)
    ensures ScanChunks(d, off) == Complete(off + |ChunkTexts(chunks) + LastText(last, trailers)|)
    ensures Payload(d, off) == DataOf(chunks)
    decreases |chunks|
  {
    hide ChunkStep, ScanChunks, Payload, ChunkText, ChunkTexts, LastText, FirstCrlf, WrittenAt, GoodChunks, GoodChunk,
         GoodSize, AllClean, DataOf;
    AfterStep(d, off);
    if chunks == [] {
      NoChunks(LastText(last, trailers));
      AnyLastChunk(d, off, last, trailers);
    } else {
      var t := ChunkText(chunks[0]);
      FirstChunk(chunks, LastText(last, trailers));
      WrittenSplit(d, off, t, ChunkTexts(chunks[1..]) + LastText(last, trailers));
      OneChunk(d, off, chunks[0]);
      AnyBodyScans(d, off + |t|, chunks[1..], last, trailers);
    }
  }

  // ----- chunks as the writer prints them

  /** The pieces the writer prints: never empty, and within what the scanner can count. */
  ghost predicate GoodParts(parts: seq<seq<byte>>)
  {
    forall i :: 0 <= i < |parts| ==> parts[i] != [] && |parts[i]| <= MAX_INT - 2
  }

  function PlainSize(n: nat): SizeText
  {
    SizeText([], NumeralOf(n, 16), [], [])
  }

  lemma PlainSizeIsGood(n: nat)
    ensures GoodSize(PlainSize(n)) && Value(NumeralOf(n, 16), 16) == n && TextOf(PlainSize(n)) == NumeralOf(n, 16)
  {
    hide TrimSpace, FirstCrlf;
    NumeralRoundTrip(n, 16);
    NumeralsArePlain(NumeralOf(n, 16), 16);
    WithoutCr(NumeralOf(n, 16));
    assert TextOf(PlainSize(n)) == NumeralOf(n, 16);
  }

  function PlainChunks(parts: seq<seq<byte>>): (r: seq<Chunk>)
    ensures |r| == |parts|
  {
    seq(|parts|, i requires 0 <= i < |parts| => Chunk(PlainSize(|parts[i]|), parts[i], CRLF))
  }

  lemma PlainChunksAreGood(parts: seq<seq<byte>>)
    requires GoodParts(parts)
    ensures GoodChunks(PlainChunks(parts))
  {
    hide GoodSize, TextOf;
    forall i | 0 <= i < |parts|
      ensures GoodChunk(PlainChunks(parts)[i])
    {
      PlainSizeIsGood(|parts[i]|);
    }
  }

  lemma {:induction false} PlainTexts(parts: seq<seq<byte>>)
    ensures ChunkTexts(PlainChunks(parts)) == ChunksOf(parts) && DataOf(PlainChunks(parts)) == Concat(parts)
    decreases |parts|
  {
    hide NumeralOf, TextOf;
    if parts != [] {
      var chunks := PlainChunks(parts);
      assert chunks[1..] == PlainChunks(parts[1..]);
      PlainTexts(parts[1..]);
      PlainSizeIsGood(|parts[0]|);
    }
  }

  lemma PlainEnd(trailers: seq<seq<byte>>)
    ensures LastText(PlainSize(0), trailers) == EndOf(trailers)
  {
    hide Join;
    PlainSizeIsGood(0);
    assert LAST_CHUNK == NumeralOf(0, 16) + CRLF;
  }

  lemma LastChunk(d: seq<byte>, off: nat, trailers: seq<seq<byte>>)
    requires WrittenAt(d, off, EndOf(trailers)) && AllClean(trailers)
    ensures ChunkStep(d, off) == Stop(Complete(off + |EndOf(trailers)|))
  {
    hide ChunkStep, EndOf, LastText, AllClean, WrittenAt, GoodSize;
    PlainSizeIsGood(0);
    PlainEnd(trailers);
    AnyLastChunk(d, off, PlainSize(0), trailers);
  }

  /** The chunks the writer prints are a chunked body whose data is what was written. */
  lemma PrintedBodyScans(d: seq<byte>, off: nat, parts: seq<seq<byte>>, trailers: seq<seq<byte>>)
    requires off <= |d| && WrittenAt(d, off, ChunksOf(parts) + EndOf(trailers))
    requires GoodParts(parts) && AllClean(trailers)
    ensures ScanChunks(d, off) == Complete(off + |ChunksOf(parts) + EndOf(trailers)|)
    ensures Payload(d, off) == Concat(parts)
  {
    hide ScanChunks, Payload, ChunksOf, EndOf, LastText, WrittenAt, GoodParts, AllClean, GoodChunks, GoodSize, Concat;
    PlainChunksAreGood(parts);
    PlainTexts(parts);
    PlainSizeIsGood(0);
    PlainEnd(trailers);
    AnyBodyScans(d, off, PlainChunks(parts), PlainSize(0), trailers);
  }
}
