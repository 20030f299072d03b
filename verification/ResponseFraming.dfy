/** Whole responses: what the request scanner makes of everything a handler's calls put on the wire. */
module ResponseFraming {
  import opened Wrappers
  import opened Bytes
  import opened Numerals
  import opened HeaderLines
  import opened RequestCheck
  import opened ExactFraming
  import opened HeaderPrint
  import opened HeaderMap
  import opened ChunkCodec
  import opened ResponseWriters

  /** A finished chunked response, after whatever was in the buffer: its body is scanned exactly to the
      last byte and carries exactly the pieces written. */
  lemma FinishedBodyScans(base: seq<byte>, head: seq<seq<byte>>, parts: seq<seq<byte>>, trailers: seq<seq<byte>>)
    requires GoodParts(parts) && AllClean(trailers)
    ensures var d := base + Response(head, true, parts) + ResponseEnd(true, trailers);
            var off := |base| + |Join(head)| + 2;
            off <= |d| && ScanChunks(d, off) == Complete(|d|) && Payload(d, off) == Concat(parts)
  {
    hide ScanChunks, Payload, Concat, Join, ChunksOf, EndOf, GoodParts, AllClean;
    var d := base + Response(head, true, parts) + ResponseEnd(true, trailers);
    var off := |base| + |Join(head)| + 2;
    var body := ChunksOf(parts) + EndOf(trailers);
    assert d == base + (Join(head) + CRLF) + body;
    assert d[off..off + |body|] == body;
    PrintedBodyScans(d, off, parts, trailers);
  }

  /** The line ensureHeaderSent adds is one the scanner takes as chunked, with or without ", trailers". */
  lemma EncodingLineIsChunked(more: seq<byte>)
    requires more == [] || more == COMMA_TRAILERS
    ensures EffectOf(TRANSFER_ENCODING + [32] + CHUNKED + more) == Chunks
  {
    hide TrimSpace, ParseSigned;
    var line := TRANSFER_ENCODING + [32] + CHUNKED + more;
    var val := CHUNKED + more;
    assert line[..|TRANSFER_ENCODING|] == TRANSFER_ENCODING;
    assert line[..|CONTENT_LENGTH|][0] == 84;
    assert line[|TRANSFER_ENCODING|..] == [32] + val;
    assert TrimSpace([32] + val) == val by { LeadingBlank(val); }
    assert FoldedAt(val, CHUNKED, 0);
  }

  lemma LeadingBlank(val: seq<byte>)
    requires val != [] && !IsSpace(val[0]) && !IsSpace(val[|val| - 1])
    ensures TrimSpace([32] + val) == val
  {
    hide TrimLeft, TrimRight;
    DropBlank(val);
    NoTrim(val);
  }

  lemma DropBlank(val: seq<byte>)
    ensures TrimLeft([32] + val) == TrimLeft(val)
  {
    assert ([32] + val)[1..] == val;
  }

  lemma NoTrim(val: seq<byte>)
    requires val != [] && !IsSpace(val[0]) && !IsSpace(val[|val| - 1])
    ensures TrimLeft(val) == val && TrimRight(val) == val
  {
  }

  /** A head the writer printed for chunks makes the scanner expect chunks, unless the handler chose its own
      Transfer-Encoding or wrote a bad Content-Length. */
  lemma WriterHeadIsChunked(s: Settings, date: seq<byte>, statusText: int -> seq<byte>)
    requires ChunksFor(s) && Get(s.header, NAME_TRANSFER_ENCODING) == []
    ensures var f := FoldLines(HeadOf(s, date, statusText)[1..], -1, false); f.Body? ==> f.chunked
  {
    hide EffectOf;
    var lines := HeadOf(s, date, statusText)[1..];
    EncodingLineIsChunked([]);
    EncodingLineIsChunked(COMMA_TRAILERS);
    assert TRANSFER_ENCODING + [32] + CHUNKED + [] == TRANSFER_ENCODING + [32] + CHUNKED;
    assert lines[|lines| - 1] == EncodingLinesOf(s, true)[0];
    assert EffectOf(lines[|lines| - 1]) == Chunks;
    FramingMeaning(lines, -1, false);
  }

  /** A whole response whose head announces chunks is framed exactly, and nothing shorter would be. */
  lemma ChunkedResponseIsFramed(head: seq<seq<byte>>, parts: seq<seq<byte>>, trailers: seq<seq<byte>>)
    requires |head| >= 2 && AllClean(head) && |Join(head)| - 2 <= MAX_HEADER_SIZE
    requires GoodParts(parts) && AllClean(trailers)
    requires FoldLines(head[1..], -1, false).Body? && FoldLines(head[1..], -1, false).chunked
    ensures var d := Response(head, true, parts) + ResponseEnd(true, trailers);
            Check(d) == Complete(|d|)
  {
    hide ScanChunks, FoldLines, Join, ChunksOf, EndOf, Check, GoodParts, AllClean, Payload, Concat;
    var d := Response(head, true, parts) + ResponseEnd(true, trailers);
    var body := ChunksOf(parts) + EndOf(trailers);
    assert d == Join(head) + CRLF + body;
    PrintedHead(head, body);
    FinishedBodyScans([], head, parts, trailers);
    assert [] + Response(head, true, parts) + ResponseEnd(true, trailers) == d;
  }

  /** A response the writer chunks by itself is accepted exactly at its last byte, unless the handler set a length
      the scanner cannot read - and then it is refused. */
  lemma WriterResponseIsFramedIff(s: Settings, date: seq<byte>, statusText: int -> seq<byte>,
                                  parts: seq<seq<byte>>, trailers: seq<seq<byte>>)
    requires ChunksFor(s) && Get(s.header, NAME_TRANSFER_ENCODING) == []
    requires AllClean(HeadOf(s, date, statusText)) && |Join(HeadOf(s, date, statusText))| - 2 <= MAX_HEADER_SIZE
    requires GoodParts(parts) && AllClean(trailers)
    ensures var head := HeadOf(s, date, statusText);
            var d := Response(head, true, parts) + ResponseEnd(true, trailers);
            Check(d) == Complete(|d|) <==> forall i :: 1 <= i < |head| ==> !EffectOf(head[i]).Bad?
  {
    hide EffectOf, FoldLines, Join, ChunksOf, EndOf, Check, GoodParts, AllClean, Get, StatusLineOf, DateLinesOf,
         LinesOf;
    var head := HeadOf(s, date, statusText);
    assert head[|head| - 1] == EncodingLinesOf(s, true)[0];
    var lines := head[1..];
    FramingMeaning(lines, -1, false);
    assert forall i :: 1 <= i < |head| ==> head[i] == lines[i - 1];
    assert forall i :: 0 <= i < |lines| ==> lines[i] == head[i + 1];
    WriterHeadIsChunked(s, date, statusText);
    if FoldLines(lines, -1, false).Body? {
      ChunkedResponseIsFramed(head, parts, trailers);
    } else {
      var body := ChunksOf(parts) + EndOf(trailers);
      assert Response(head, true, parts) + ResponseEnd(true, trailers) == Join(head) + CRLF + body;
      PrintedHead(head, body);
    }
  }

  /** Without chunks in the head, a whole response is framed exactly when the declared length is the
      length of what follows. */
  lemma PlainResponseIsFramedIff(head: seq<seq<byte>>, body: seq<byte>)
    requires |head| >= 2 && AllClean(head) && |Join(head)| - 2 <= MAX_HEADER_SIZE
    requires FoldLines(head[1..], -1, false).Body? && !FoldLines(head[1..], -1, false).chunked
    requires |Join(head) + CRLF + body| <= MAX_INT
    ensures Check(Join(head) + CRLF + body) == Complete(|Join(head) + CRLF + body|)
       <==> |body| == (var n := FoldLines(head[1..], -1, false).contentLength; if n >= 0 then n else 0)
  {
    hide FoldLines, Join, Check, AllClean;
    PrintedHead(head, body);
    LengthIsAnInt(head[1..], -1, false);
  }

  /** A chunk scan of the rest of a buffer is a chunk scan of that rest alone. */
  function Shifted(v: Verdict, n: nat): Verdict
  {
    if v.Complete? then Complete(v.bytes + n) else v
  }

  lemma StepShifts(d: seq<byte>, start: nat, off: nat)
    requires start + off <= |d|
    ensures ChunkStep(d, start + off) ==
            match ChunkStep(d[start..], off)
            case Stop(v) => Stop(Shifted(v, start))
            case Next(o) => Next(start + o)
  {
    hide ChunkSize, FirstCrlf, FirstTerm;
    var s := d[start..];
    CrlfShifts(d, start, off);
    var i := FirstCrlf(s, off);
    if i != -1 {
      assert d[start + off..start + i] == s[off..i];
      assert CrlfAt(d, start + i + 2) == CrlfAt(s, i + 2);
      TermShifts(d, start, i + 2);
    }
  }

  lemma CrlfShifts(d: seq<byte>, start: nat, off: nat)
    requires start + off <= |d|
    ensures FirstCrlf(d, start + off) ==
            if FirstCrlf(d[start..], off) == -1 then -1 else start + FirstCrlf(d[start..], off)
  {
    hide FirstCrlf;
    FirstCrlfInSlice(d, start + off);
    FirstCrlfInSlice(d[start..], off);
    assert d[start..][off..] == d[start + off..];
  }

  lemma TermShifts(d: seq<byte>, start: nat, off: nat)
    requires start + off <= |d|
    ensures FirstTerm(d, start + off) ==
            if FirstTerm(d[start..], off) == -1 then -1 else start + FirstTerm(d[start..], off)
  {
    hide FirstTerm;
    FirstTermInSlice(d, start + off);
    FirstTermInSlice(d[start..], off);
    assert d[start..][off..] == d[start + off..];
  }

  lemma {:induction false} ScanShifts(d: seq<byte>, start: nat, off: nat)
    requires start + off <= |d|
    ensures ScanChunks(d, start + off) == Shifted(ScanChunks(d[start..], off), start)
    decreases |d| - off
  {
    hide ChunkStep;
    StepShifts(d, start, off);
    var step := ChunkStep(d[start..], off);
    if step.Next? {
      ScanShifts(d, start, step.off);
    }
  }

  /** What the handler's pieces become on the wire. */
  function BodyOf(chunks: bool, parts: seq<seq<byte>>, trailers: seq<seq<byte>>): seq<byte>
  {
    if chunks then ChunksOf(parts) + EndOf(trailers) else Concat(parts)
  }

  /** When a body is framed as the head says: a chunked one by its own last chunk, another by its length. */
  ghost predicate Fits(framing: Framing, body: seq<byte>)
  {
    match framing
    case Malformed(_) => false
    case Body(n, chunked) =>
      if chunked then ScanChunks(body, 0) == Complete(|body|) else |body| == if n >= 0 then n else 0
  }

  /** A printed head and any body after it. */
  lemma BodyIsFramedIff(head: seq<seq<byte>>, body: seq<byte>)
    requires |head| >= 2 && AllClean(head) && |Join(head)| - 2 <= MAX_HEADER_SIZE
    requires |Join(head) + CRLF + body| <= MAX_INT
    ensures Check(Join(head) + CRLF + body) == Complete(|Join(head) + CRLF + body|)
       <==> Fits(FoldLines(head[1..], -1, false), body)
  {
    hide FoldLines, ScanChunks, Join, Check, AllClean;
    var d := Join(head) + CRLF + body;
    var off := |Join(head)| + 2;
    PrintedHead(head, body);
    assert d[off..] == body;
    ScanShifts(d, off, 0);
    LengthIsAnInt(head[1..], -1, false);
  }

  lemma ChunkedBodyFits(n: int, parts: seq<seq<byte>>, trailers: seq<seq<byte>>)
    requires GoodParts(parts) && AllClean(trailers)
    ensures Fits(Body(n, true), BodyOf(true, parts, trailers))
  {
    hide ScanChunks, ChunksOf, EndOf, GoodParts, AllClean, Concat, Payload;
    var body := BodyOf(true, parts, trailers);
    assert body[0..|body|] == body;
    PrintedBodyScans(body, 0, parts, trailers);
  }

  /** Every response, whatever the handler set: it is framed exactly if and only if its body is what the head's lines
      announce.  A chunk-printed body under a chunked head always is; under another head it has to be as long, size
      lines included, as the length that head declares; a plain body under a chunked head has to be chunked by the
      handler itself. */
  lemma ResponseIsFramedIff(s: Settings, date: seq<byte>, statusText: int -> seq<byte>,
                            parts: seq<seq<byte>>, trailer: seq<Field>)
    requires CleanLine(LineOf(NAME_DATE, date)) && forall code :: CR !in statusText(code)
    requires |Join(HeadOf(s, date, statusText))| - 2 <= MAX_HEADER_SIZE && GoodParts(parts)
    requires |Join(HeadOf(s, date, statusText)) + CRLF + BodyOf(ChunksFor(s), parts, LinesOf(trailer))| <= MAX_INT
    ensures var head, chunks := HeadOf(s, date, statusText), ChunksFor(s);
            var d := Response(head, chunks, parts) + ResponseEnd(chunks, LinesOf(trailer));
            && |head| >= 2
            && var framing := FoldLines(head[1..], -1, false);
            && (Check(d) == Complete(|d|) <==> Fits(framing, BodyOf(chunks, parts, LinesOf(trailer))))
            && (chunks && framing.Body? && framing.chunked ==> Fits(framing, BodyOf(chunks, parts, LinesOf(trailer))))
  {
    HeadIsClean(s, date, statusText);
    PrintedIsClean(trailer);
    hide HeadOf, ChunksFor, FoldLines, Join, ChunksOf, EndOf, Check, GoodParts, AllClean, Concat, LinesOf, Fits;
    var head, chunks := HeadOf(s, date, statusText), ChunksFor(s);
    var body := BodyOf(chunks, parts, LinesOf(trailer));
    assert Response(head, chunks, parts) + ResponseEnd(chunks, LinesOf(trailer)) == Join(head) + CRLF + body;
    BodyIsFramedIff(head, body);
    var framing := FoldLines(head[1..], -1, false);
    if chunks && framing.Body? && framing.chunked {
      ChunkedBodyFits(framing.contentLength, parts, LinesOf(trailer));
    }
  }

  const GZIP: seq<byte> := [103, 122, 105, 112]

  /** A handler that announces gzip as its Transfer-Encoding and no length. */
  function OwnEncoding(): Settings
  {
    Settings(Set([], NAME_TRANSFER_ENCODING, GZIP), [], 200)
  }

  /** Its body is printed in chunks that nothing announces, so no such response is framed. */
  lemma OwnEncodingExample(date: seq<byte>, statusText: int -> seq<byte>, parts: seq<seq<byte>>)
    requires CleanLine(LineOf(NAME_DATE, date)) && forall code :: CR !in statusText(code)
    requires |Join(HeadOf(OwnEncoding(), date, statusText))| - 2 <= MAX_HEADER_SIZE && GoodParts(parts)
    requires |Join(HeadOf(OwnEncoding(), date, statusText)) + CRLF + BodyOf(true, parts, [])| <= MAX_INT
    ensures ChunksFor(OwnEncoding())
    ensures var d := Response(HeadOf(OwnEncoding(), date, statusText), true, parts) + ResponseEnd(true, []);
            Check(d) != Complete(|d|)
  {
    hide Check, Join, ChunksOf, EffectOf, FoldLines, CleanLine, StatusLineOf, GoodParts, ScanChunks, Get, Set, ChunksFor,
         LinesOf, DateLinesOf, EncodingLinesOf, Concat;
    OwnEncodingSettings();
    var s := OwnEncoding();
    var head := HeadOf(s, date, statusText);
    var lines := head[1..];
    assert lines == DateLinesOf(s.header, date) + LinesOf(s.header);
    forall i | 0 <= i < |lines|
      ensures EffectOf(lines[i]) == Ignored
    {
      assert lines[i] in lines;
      if lines[i] in LinesOf(s.header) {
        OwnLinesIgnored(lines[i]);
      } else {
        DateIgnored(s.header, date, lines[i]);
      }
    }
    FramingMeaning(lines, -1, false);
    NoLines([]);
    ResponseIsFramedIff(s, date, statusText, parts, []);
    assert EndOf([])[0] == 48;
    assert |BodyOf(true, parts, [])| > 0;
  }

  lemma OwnEncodingSettings()
    ensures ChunksFor(OwnEncoding()) && EncodingLinesOf(OwnEncoding(), true) == []
  {
    KeyLaws([], Canonical(NAME_TRANSFER_ENCODING), GZIP, Canonical(NAME_CONTENT_LENGTH));
    assert |Canonical(NAME_TRANSFER_ENCODING)| == 17 && |Canonical(NAME_CONTENT_LENGTH)| == 14;
  }

  lemma OwnLinesIgnored(line: seq<byte>)
    requires line in LinesOf(OwnEncoding().header)
    ensures EffectOf(line) == Ignored
  {
    hide TrimSpace, ParseSigned;
    var name := Canonical(NAME_TRANSFER_ENCODING);
    CapitalisedAt(NAME_TRANSFER_ENCODING, true);
    assert OwnEncoding().header[1..] == [];
    assert |name| == 17 && Lower(name[0]) == 116;
    var value := WithoutBlanks(OneLine(GZIP));
    assert line == LineOf(name, value) && |line| <= 23;
    assert line[0] == name[0];
    assert |line| >= 15 ==> line[..15][0] == name[0];
    if HasField(line, TRANSFER_ENCODING) {
      TrimIsShorter(line[18..]);
    }
  }

  lemma TrimIsShorter(s: seq<byte>)
    ensures |TrimSpace(s)| <= |s|
  {
  }

  lemma DateIgnored(header: seq<Field>, date: seq<byte>, line: seq<byte>)
    requires line in DateLinesOf(header, date)
    ensures EffectOf(line) == Ignored
  {
    hide EffectOf, Get;
    assert line == LineOf(NAME_DATE, date);
    DIsIgnored(line);
  }

  lemma DIsIgnored(line: seq<byte>)
    requires line != [] && line[0] == 'D' as int
    ensures EffectOf(line) == Ignored
  {
    hide TrimSpace, ParseSigned, ContainsFold;
    assert |line| >= 15 ==> line[..15][0] == 68;
    assert |line| >= 18 ==> line[..18][0] == 68;
  }

  // ----- any mix of calls

  /** What a handler can do with its ResponseWriter. */
  datatype Call =
    | CallWrite(p: seq<byte>)
    | CallWriteString(s: seq<byte>)
    | CallReadFrom(script: seq<Reading>)
    | CallFlush
    | CallWriteHeader(code: int)
    | CallSetHeader(name: seq<byte>, value: seq<byte>)
    | CallAddHeader(name: seq<byte>, value: seq<byte>)
    | CallDelHeader(name: seq<byte>)
    | CallSetTrailer(name: seq<byte>, value: seq<byte>)
    | CallAddTrailer(name: seq<byte>, value: seq<byte>)
    | CallDelTrailer(name: seq<byte>)
    | CallHijack

  /** Slices are no longer than an int can say of a chunk with its line end. */
  ghost predicate GoodCall(c: Call)
  {
    match c
    case CallWrite(p) => |p| <= MAX_INT - 2
    case CallWriteString(s) => |s| <= MAX_INT - 2
    case CallReadFrom(script) => forall i :: 0 <= i < |script| ==> |script[i].data| <= MAX_INT - 2
    case _ => true
  }

  ghost function PartsOfCall(c: Call): seq<seq<byte>>
  {
    match c
    case CallWrite(p) => NonEmpty(p)
    case CallWriteString(s) => NonEmpty(s)
    case CallReadFrom(script) => PiecesOf(script)
    case _ => []
  }

  /** The non-empty pieces of the body a handler writes; after a hijack there are no more. */
  ghost function PartsOf(calls: seq<Call>): seq<seq<byte>>
  {
    if calls == [] then []
    else
      var before := calls[..|calls| - 1];
      PartsOf(before) + if CallHijack in before then [] else PartsOfCall(calls[|calls| - 1])
  }

  /** What the calls have settled: the settings now, and those the head was printed from. */
  datatype Plan = Plan(now: Settings, printed: Option<Settings>, hijacked: bool)

  /** The head is printed from the settings of this moment, unless it is out or the connection is taken over. */
  function Printing(p: Plan, now: Settings): Plan
  {
    if p.hijacked || p.printed.Some? then p else Plan(now, Some(now), false)
  }

  function FirstWriting(p: Plan, data: seq<byte>, detect: seq<byte> -> seq<byte>): Plan
  {
    if data == [] then p else Printing(p, p.now.(header := Sniffed(p.now.header, data, detect)))
  }

  function PlanAfter(p: Plan, c: Call, detect: seq<byte> -> seq<byte>): Plan
  {
    match c
    case CallWrite(data) => FirstWriting(p, data, detect)
    case CallWriteString(data) => FirstWriting(p, data, detect)
    case CallReadFrom(_) => Printing(p, p.now)
    case CallFlush => Printing(p, p.now)
    case CallWriteHeader(code) => if p.hijacked || p.printed.Some? then p else p.(now := p.now.(statusCode := code))
    case CallSetHeader(name, value) => p.(now := p.now.(header := Set(p.now.header, name, value)))
    case CallAddHeader(name, value) => p.(now := p.now.(header := Add(p.now.header, name, value)))
    case CallDelHeader(name) => p.(now := p.now.(header := Del(p.now.header, name)))
    case CallSetTrailer(name, value) => p.(now := p.now.(trailer := Set(p.now.trailer, name, value)))
    case CallAddTrailer(name, value) => p.(now := p.now.(trailer := Add(p.now.trailer, name, value)))
    case CallDelTrailer(name) => p.(now := p.now.(trailer := Del(p.now.trailer, name)))
    case CallHijack => p.(hijacked := true)
  }

  function PlanOf(start: Settings, calls: seq<Call>, detect: seq<byte> -> seq<byte>): (p: Plan)
    ensures p.hijacked <==> CallHijack in calls
  {
    if calls == [] then Plan(start, None, false)
    else
      assert calls == calls[..|calls| - 1] + [calls[|calls| - 1]];
      PlanAfter(PlanOf(start, calls[..|calls| - 1], detect), calls[|calls| - 1], detect)
  }

  /** The settings the head of the whole response is printed from: with nothing printed before EndResponse, a zero
      length is declared. */
  function PrintedFrom(p: Plan): Settings
  {
    if p.printed.Some? then p.printed.value else p.now.(header := Set(p.now.header, NAME_CONTENT_LENGTH, [48]))
  }

  /** The writer has done what the plan says. */
  ghost predicate Follows(w: ResponseWriter, p: Plan)
    reads w
  {
    && w.Current() == p.now && w.hijacked == p.hijacked
    && w.headerSent == p.printed.Some?
    && (w.headerSent ==>
          w.chunked == ChunksFor(p.printed.value) && w.head == HeadOf(p.printed.value, w.date, w.statusText))
  }

  method Perform(w: ResponseWriter, c: Call, ghost p: Plan)
    requires w.Valid() && GoodCall(c) && Follows(w, p)
    modifies w
    ensures w.Valid() && w.parts == old(w.parts) + if p.hijacked then [] else PartsOfCall(c)
    ensures Follows(w, PlanAfter(p, c, w.detect))
  {
    hide w.Printable, w.Printed, PiecesOf, CleanLine, HeadOf, ChunksFor, Set, Add, Del, Sniffed;
    assert w.parts == w.parts + [];
    match c
    case CallWrite(data) => var _ := w.Write(data);
    case CallWriteString(data) => var _ := w.Write(data);
    case CallReadFrom(script) =>
      var source := new Source(script);
      var _ := w.ReadFrom(source);
    case CallFlush => w.Flush();
    case CallWriteHeader(code) => w.WriteHeader(code);
    case CallSetHeader(name, value) => w.SetHeader(name, value);
    case CallAddHeader(name, value) => w.AddHeader(name, value);
    case CallDelHeader(name) => w.DelHeader(name);
    case CallSetTrailer(name, value) => w.SetTrailer(name, value);
    case CallAddTrailer(name, value) => w.AddTrailer(name, value);
    case CallDelTrailer(name) => w.DelTrailer(name);
    case CallHijack => var _ := w.Hijack();
  }

  /** A handler that makes any sequence of calls, and the EndResponse after it.  The calls alone determine the
      bytes, all of which have reached the connection: the head printed from the settings of the moment, the pieces
      written, the trailers there at the end - or nothing more from a hijack on.  When chunks are used, the scanner
      ends at the last byte of `out` and the data it skips is what the calls wrote, in order. */
  method Respond(w: ResponseWriter, calls: seq<Call>)
    requires w.Valid() && !w.hijacked && !w.headerSent
    requires forall i :: 0 <= i < |calls| ==> GoodCall(calls[i])
    modifies w
    ensures w.flushed == |w.out|
    ensures var plan := PlanOf(old(w.Current()), calls, w.detect);
            var from := PrintedFrom(plan);
            var head := w.base + Join(HeadOf(from, w.date, w.statusText)) + CRLF;
            var written := Concat(PartsOf(calls));
            var chunks := from.trailer != [] || Get(from.header, NAME_CONTENT_LENGTH) == [];
            && (CallHijack in calls ==>
                  w.out == if plan.printed.None? then w.base
                           else head + if chunks then ChunksOf(PartsOf(calls)) else written)
            && (CallHijack !in calls && !chunks ==> w.out == head + written)
            && (CallHijack !in calls && chunks ==>
                  var off, end := |head|, EndOf(LinesOf(plan.now.trailer));
                  && w.out == head + ChunksOf(PartsOf(calls)) + end
                  && ScanChunks(w.out, off) == Complete(|w.out|) && Payload(w.out, off) == written)
  {
    hide GoodCall, PartsOfCall, PlanAfter, Response, ResponseEnd, Concat, ScanChunks, Payload, Join, LinesOf, HeadOf,
         ChunksFor, Set, Get, ChunksOf, EndOf, AllClean, w.Printable;
    ghost var start := w.Current();
    for i := 0 to |calls|
      invariant w.Valid() && w.parts == PartsOf(calls[..i]) && Follows(w, PlanOf(start, calls[..i], w.detect))
    {
      assert calls[..i + 1][..i] == calls[..i];
      Perform(w, calls[i], PlanOf(start, calls[..i], w.detect));
    }
    assert calls[..|calls|] == calls;
    assert GoodParts(w.parts);
    w.EndResponse();
    ResponseBytes(w.base, w.head, w.chunked, w.parts, LinesOf(w.trailer));
    ChunksForIff(PrintedFrom(PlanOf(start, calls, w.detect)));
    if w.chunked && !w.hijacked {
      FinishedBodyScans(w.base, w.head, w.parts, LinesOf(w.trailer));
    }
  }

  lemma ChunksForIff(s: Settings)
    ensures ChunksFor(s) <==> s.trailer != [] || Get(s.header, NAME_CONTENT_LENGTH) == []
  {
  }

  lemma ResponseBytes(base: seq<byte>, head: seq<seq<byte>>, chunks: bool, parts: seq<seq<byte>>,
                      trailers: seq<seq<byte>>)
    ensures base + Response(head, chunks, parts) == base + Join(head) + CRLF + if chunks then ChunksOf(parts) else Concat(parts)
    ensures base + Response(head, chunks, parts) + ResponseEnd(chunks, trailers) ==
            if chunks then base + Join(head) + CRLF + ChunksOf(parts) + EndOf(trailers)
            else base + Join(head) + CRLF + Concat(parts)
  {
    hide Join, ChunksOf, EndOf, Concat;
    var body := if chunks then ChunksOf(parts) else Concat(parts);
    assert base + (Join(head) + CRLF + body) == base + Join(head) + CRLF + body;
  }
}
