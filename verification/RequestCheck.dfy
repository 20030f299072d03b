/** CheckRequest of pkg/engine/parser/parser.go: is a whole request buffered, and where does it end? */
module RequestCheck {
  import opened Bytes
  import opened Numerals
  import opened HeaderLines

  const MAX_HEADER_SIZE := 8192

  /** CheckResult: Complete carries BytesConsumed, Rejected carries Error. */
  datatype Verdict = Incomplete | Complete(bytes: int) | Rejected(error: ParseError)

  /** The size written on a chunk-size line: extensions and blanks are dropped. */
  ghost function ChunkSize(line: seq<byte>): Parsed
  {
    ParseDigits(TrimSpace(Before(line, 59)), 16)
  }

  /** After the zero chunk, at p: an empty line, or a trailer section ended by one. */
  function AfterLastChunk(d: seq<byte>, p: nat): Verdict
    requires p <= |d|
  {
    if CrlfAt(d, p) then Complete(p + 2)
    else
      var t := FirstTerm(d, p);
      if t == -1 then Incomplete else Complete(t + 4)
  }

  /** What one pass of the chunk loop decides. */
  datatype Step = Stop(verdict: Verdict) | Next(off: nat)

  /** One chunk, whose size line starts at absolute position `off`. */
  ghost function ChunkStep(d: seq<byte>, off: nat): (s: Step)
    requires off <= |d|
    ensures s.Next? ==> off < s.off <= |d|
  {
    var i := FirstCrlf(d, off);
    if i == -1 then Stop(Incomplete)
    else
      match ChunkSize(d[off..i])
      case Failed(e) => Stop(Rejected(e))
      case Number(size) =>
        if size == 0 then Stop(AfterLastChunk(d, i + 2))
        else if size > MAX_INT - 2 then Stop(Rejected(ErrRange))
        else if size < 0 || |d| - (i + 2) < size + 2 then Stop(Incomplete)
        else Next(i + 2 + size + 2)
  }

  ghost function ScanChunks(d: seq<byte>, off: nat): Verdict
    requires off <= |d|
    decreases |d| - off
  {
    var step := ChunkStep(d, off);
    if step.Stop? then step.verdict else ScanChunks(d, step.off)
  }

  /** The body's verdict; `sep` is the first byte after the header block. */
  ghost function BodyVerdict(d: seq<byte>, sep: nat, f: Framing): Verdict
    requires sep <= |d|
  {
    if f.Malformed? then Rejected(f.error)
    else if f.chunked then ScanChunks(d, sep)
    else if f.contentLength >= 0 then
      var total := WrapAdd(sep, f.contentLength);
      if |d| >= total then Complete(total) else Incomplete
    else Complete(sep)
  }

  /** The verdict when the header block ends at i. */
  ghost function HeaderVerdict(d: seq<byte>, i: nat): Verdict
    requires i + 4 <= |d|
  {
    var k := FirstCrlf(d[..i], 0);
    if k == -1 then Incomplete
    else BodyVerdict(d, i + 4, FramingOf(d[..i][k + 2..]))
  }

  ghost function Check(d: seq<byte>): Verdict
  {
    var i := FirstTerm(d, 0);
    if i == -1 then if |d| > MAX_HEADER_SIZE then Rejected(ErrRange) else Incomplete
    else if i > MAX_HEADER_SIZE then Rejected(ErrRange)
    else HeaderVerdict(d, i)
  }

  // ----- the source's loops

  /** A search in the rest of the body is a search of the buffer from that point. */
  lemma SearchFrom(data: seq<byte>, sep: nat, offset: nat)
    requires sep + offset <= |data|
    ensures data[sep..][offset..] == data[sep + offset..]
    ensures FirstCrlf(data, sep + offset) ==
            (var i := FirstCrlf(data[sep..][offset..], 0); if i == -1 then -1 else sep + offset + i)
    ensures FirstTerm(data, sep + offset) ==
            (var i := FirstTerm(data[sep..][offset..], 0); if i == -1 then -1 else sep + offset + i)
  {
    assert data[sep..][offset..] == data[sep + offset..];
    FirstCrlfInSlice(data, sep + offset);
    FirstTermInSlice(data, sep + offset);
  }

  lemma SizeIsNonNegative(line: seq<byte>)
    ensures ParseDigits(line, 16).Number? ==> 0 <= ParseDigits(line, 16).value <= MAX_INT
  {
    ParsesExactly(line, 16);
  }

  /** Lines 148-163. */
  method ScanTrailer(data: seq<byte>, sep: nat, offset: nat) returns (r: Verdict)
    requires sep + offset <= |data|
    ensures r == AfterLastChunk(data, sep + offset)
  {
    var rest := data[sep..][offset..];
    SearchFrom(data, sep, offset);
    if |rest| >= 2 && rest[0] == CR && rest[1] == LF {
      return Complete(sep + offset + 2);
    }
    var trailerEnd := FirstTerm(rest, 0);
    if trailerEnd == -1 {
      return Incomplete;
    }
    return Complete(sep + offset + trailerEnd + 4);
  }

  /** One pass of the chunk loop, lines 123-172; `next` is the new offset. */
  method NextChunk(data: seq<byte>, headerBodySep: nat, offset: nat) returns (done: bool, r: Verdict, next: nat)
    requires headerBodySep + offset <= |data|
    ensures ChunkStep(data, headerBodySep + offset) == if done then Stop(r) else Next(headerBodySep + next)
  {
    hide ParseDigits, TrimSpace, Before, FirstTerm, FirstCrlf;
    var bodyData := data[headerBodySep..];
    SearchFrom(data, headerBodySep, offset);
    var idx := FirstCrlf(bodyData[offset..], 0);
    if idx == -1 {
      return true, Incomplete, 0;
    }
    var line := bodyData[offset..offset + idx];
    assert line == data[headerBodySep + offset..headerBodySep + offset + idx];
    line := TrimSpace(Before(line, 59));
    var chunkSize := ParseHexInt(line);
    if chunkSize.Failed? {
      return true, Rejected(chunkSize.error), 0;
    }
    SizeIsNonNegative(line);
    next := offset + idx + 2;
    if chunkSize.value == 0 {
      r := ScanTrailer(data, headerBodySep, next);
      return true, r, 0;
    }
    if chunkSize.value > MAX_INT - 2 {
      return true, Rejected(ErrRange), 0;
    }
    if |bodyData[next..]| < chunkSize.value + 2 {
      return true, Incomplete, 0;
    }
    return false, Incomplete, next + chunkSize.value + 2;
  }

  method ScanBody(data: seq<byte>, headerBodySep: nat) returns (r: Verdict)
    requires headerBodySep <= |data|
    ensures r == ScanChunks(data, headerBodySep)
  {
    hide ChunkStep;
    var offset := 0;
    while true
      invariant 0 <= offset && headerBodySep + offset <= |data|
      invariant ScanChunks(data, headerBodySep + offset) == ScanChunks(data, headerBodySep)
      decreases |data| - offset
    {
      var done, verdict, next := NextChunk(data, headerBodySep, offset);
      if done {
        return verdict;
      }
      offset := next;
    }
  }

  /** Lines 117-185. */
  method CheckBody(data: seq<byte>, headerBodySep: nat, framing: Framing) returns (r: Verdict)
    requires headerBodySep <= |data|
    ensures r == BodyVerdict(data, headerBodySep, framing)
  {
    if framing.Malformed? {
      return Rejected(framing.error);
    }
    if framing.chunked {
      r := ScanBody(data, headerBodySep);
      return;
    }
    if framing.contentLength >= 0 {
      var totalLen := WrapAdd(headerBodySep, framing.contentLength);
      if |data| >= totalLen {
        return Complete(totalLen);
      }
      return Incomplete;
    }
    return Complete(headerBodySep);
  }

  /** CheckRequest, branch for branch; the header loop and the chunk loop are ScanHeaderLines and ScanBody. */
  method CheckRequest(data: seq<byte>) returns (r: Verdict)
    ensures r == Check(data)
  {
    hide BodyVerdict, FramingOf, FirstTerm, FirstCrlf;
    var headerEndIdx := FirstTerm(data, 0);
    if headerEndIdx == -1 {
      if |data| > MAX_HEADER_SIZE {
        return Rejected(ErrRange);
      }
      return Incomplete;
    }
    if headerEndIdx > MAX_HEADER_SIZE {
      return Rejected(ErrRange);
    }
    var headerBodySep := headerEndIdx + 4;
    var headers := data[..headerEndIdx];
    var idx := FirstCrlf(headers, 0);
    if idx == -1 {
      return Incomplete;
    }
    var framing := ScanHeaderLines(headers[idx + 2..]);
    r := CheckBody(data, headerBodySep, framing);
  }
}
