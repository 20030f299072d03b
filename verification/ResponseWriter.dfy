/** The ResponseWriter of pkg/adaptor/adaptor.go.

    `out` is everything written, in order, and the first `flushed` bytes of it have left the bufio.Writer for the
    connection; writes succeed. */
module ResponseWriters {
  import opened Bytes
  import opened Numerals
  import opened HeaderLines
  import opened HeaderPrint
  import opened HeaderMap
  import opened ChunkCodec

  const NAME_CONTENT_LENGTH: seq<byte> := CONTENT_LENGTH[..14]
  const NAME_TRANSFER_ENCODING: seq<byte> := TRANSFER_ENCODING[..17]
  const NAME_DATE: seq<byte> := [68, 97, 116, 101]
  const NAME_CONTENT_TYPE: seq<byte> := [67, 111, 110, 116, 101, 110, 116, 45, 84, 121, 112, 101]
  const PROTO: seq<byte> := [72, 84, 84, 80, 47, 49, 46, 49, 32] // "HTTP/1.1 "
  const UNKNOWN_STATUS: seq<byte> := // "status code "
    [115, 116, 97, 116, 117, 115, 32, 99, 111, 100, 101, 32]
  const COMMA_TRAILERS: seq<byte> := [44, 32, 116, 114, 97, 105, 108, 101, 114, 115] // ", trailers"

  /** How much of a first write http.DetectContentType looks at. */
  const SNIFF_LENGTH := 512

  /** A Content-Type is detected from the first write when the handler has set none. */
  function Sniffed(header: seq<Field>, p: seq<byte>, detect: seq<byte> -> seq<byte>): seq<Field>
  {
    if Get(header, NAME_CONTENT_TYPE) != [] then header
    else Set(header, NAME_CONTENT_TYPE, detect(if |p| < SNIFF_LENGTH then p else p[..SNIFF_LENGTH]))
  }

  function Itoa(n: int): seq<byte>
  {
    if n < 0 then [45] + NumeralOf(-n, 10) else NumeralOf(n, 10)
  }

  /** What one Read of the handler's source returns: bytes, and perhaps the end of the source. */
  datatype Reading = Reading(data: seq<byte>, end: SourceEnd)
  datatype SourceEnd = More | Eof | Broken

  /** The reader given to ReadFrom: its successive results, empty reads included. */
  class Source {
    var script: seq<Reading>

    constructor (script: seq<Reading>)
      ensures this.script == script
    {
      this.script := script;
    }

    method Read() returns (r: Reading)
      modifies this
      ensures old(script) == [] ==> r == Reading([], Eof) && script == []
      ensures old(script) != [] ==> r == old(script)[0] && script == old(script)[1..]
    {
      if script == [] {
        return Reading([], Eof);
      }
      r := script[0];
      script := script[1..];
    }
  }

  function NonEmpty(p: seq<byte>): seq<seq<byte>>
  {
    if p == [] then [] else [p]
  }

  /** The pieces a source delivers before it ends. */
  function PiecesOf(script: seq<Reading>): seq<seq<byte>>
  {
    if script == [] then []
    else if script[0].end != More then NonEmpty(script[0].data)
    else NonEmpty(script[0].data) + PiecesOf(script[1..])
  }

  /** Whether a source breaks before its end. */
  predicate Breaks(script: seq<Reading>)
  {
    script != [] && (script[0].end == Broken || (script[0].end == More && Breaks(script[1..])))
  }

  /** What one Read takes out of the rest of the source. */
  lemma OneReading(before: seq<Reading>, r: Reading, after: seq<Reading>, parts: seq<seq<byte>>)
    requires if before == [] then r == Reading([], Eof) && after == [] else r == before[0] && after == before[1..]
    ensures r.end == More ==>
              && |before| > |after|
              && parts + PiecesOf(before) == parts + NonEmpty(r.data) + PiecesOf(after)
              && |Concat(PiecesOf(before))| == |r.data| + |Concat(PiecesOf(after))|
              && Breaks(before) == Breaks(after)
    ensures r.end != More ==>
              && PiecesOf(before) == NonEmpty(r.data)
              && |Concat(PiecesOf(before))| == |r.data|
              && Breaks(before) == (r.end == Broken)
  {
    ConcatOne(r.data);
    ConcatSplit(NonEmpty(r.data), PiecesOf(after));
  }

  datatype Outcome = Wrote(n: nat) | HijackedError | SourceError(n: nat)

  /** What ReadFrom reports: the bytes copied, and whether the source broke. */
  ghost function CopyOutcome(script: seq<Reading>): Outcome
  {
    var n := |Concat(PiecesOf(script))|;
    if Breaks(script) then SourceError(n) else Wrote(n)
  }

  /** A response so far: the printed head, then the pieces of the body as chunks or as they are. */
  function Response(head: seq<seq<byte>>, chunked: bool, parts: seq<seq<byte>>): seq<byte>
  {
    Join(head) + CRLF + if chunked then ChunksOf(parts) else Concat(parts)
  }

  /** What EndResponse adds. */
  function ResponseEnd(chunked: bool, trailers: seq<seq<byte>>): seq<byte>
  {
    if chunked then EndOf(trailers) else []
  }

  /** What a handler can still change before the head is printed. */
  datatype Settings = Settings(header: seq<Field>, trailer: seq<Field>, statusCode: int)

  /** Chunks are used when no length is declared or trailers were announced. */
  predicate ChunksFor(s: Settings)
  {
    Get(s.header, NAME_CONTENT_LENGTH) == [] || s.trailer != []
  }

  function StatusLineOf(statusCode: int, statusText: int -> seq<byte>): seq<byte>
  {
    var text := statusText(statusCode);
    PROTO + Itoa(statusCode) + [32] + if text == [] then UNKNOWN_STATUS + Itoa(statusCode) else text
  }

  function DateLinesOf(header: seq<Field>, date: seq<byte>): seq<seq<byte>>
  {
    if Get(header, NAME_DATE) == [] then [LineOf(NAME_DATE, date)] else []
  }

  /** The Transfer-Encoding line, unless the handler set one. */
  function EncodingLinesOf(s: Settings, chunks: bool): seq<seq<byte>>
  {
    if !chunks || Get(s.header, NAME_TRANSFER_ENCODING) != [] then []
    else if s.trailer != [] then [TRANSFER_ENCODING + [32] + CHUNKED + COMMA_TRAILERS]
    else [TRANSFER_ENCODING + [32] + CHUNKED]
  }

  /** The lines of the head. */
  function HeadOf(s: Settings, date: seq<byte>, statusText: int -> seq<byte>): seq<seq<byte>>
  {
    [StatusLineOf(s.statusCode, statusText)] + DateLinesOf(s.header, date) + LinesOf(s.header)
    + EncodingLinesOf(s, ChunksFor(s))
  }

  class ResponseWriter {
    // the source's fields; date, statusText and detect stand for net/http's tables
    var header: seq<Field>
    var trailer: seq<Field>
    var statusCode: int
    var hijacked: bool
    var headerSent: bool
    var chunked: bool
    var attached: bool                 // bufWriter is not nil
    var out: seq<byte>
    var flushed: nat
    const date: seq<byte>
    const statusText: int -> seq<byte>
    const detect: seq<byte> -> seq<byte>
    const delegates: bool              // the connection implements io.ReaderFrom

    // what has been printed so far
    ghost const base: seq<byte>        // what earlier responses left in the writer
    ghost var head: seq<seq<byte>>     // the header lines
    ghost var parts: seq<seq<byte>>    // the non-empty pieces of the body

    /** The texts that are printed as they are make lines. */
    ghost predicate Printable()
    {
      CleanLine(LineOf(NAME_DATE, date)) && forall code :: CR !in statusText(code)
    }

    /** What is printed is the head and the pieces of the body, in the chosen form. */
    ghost predicate Printed()
      reads this`out, this`headerSent, this`chunked, this`head, this`parts
    {
      && GoodParts(parts)
      && (!headerSent ==> parts == [] && out == base)
      && (headerSent ==>
            && |head| >= 2 && AllClean(head)
            && out == base + Response(head, chunked, parts))
    }

    /** The bufio.Writer is given up on hijacking, with nothing left in it. */
    ghost predicate Attached()
      reads this`attached, this`hijacked, this`out, this`flushed
    {
      attached == !hijacked && flushed <= |out| && (hijacked ==> flushed == |out|)
    }

    ghost predicate Valid()
      reads this
    {
      Printable() && Printed() && Attached()
    }

    /** NewResponseWriter. */
    constructor (out: seq<byte>, date: seq<byte>, statusText: int -> seq<byte>, detect: seq<byte> -> seq<byte>,
                 delegates: bool)
      requires CleanLine(LineOf(NAME_DATE, date)) && forall code :: CR !in statusText(code)
      ensures Valid() && !headerSent && !hijacked && header == trailer == [] && parts == []
      ensures this.out == out == base && statusCode == 200
      ensures this.date == date && this.statusText == statusText && this.detect == detect && this.delegates == delegates
    {
      this.out := out;
      this.base := out;
      this.flushed := 0;
      this.attached := true;
      this.date := date;
      this.statusText := statusText;
      this.detect := detect;
      this.delegates := delegates;
      statusCode := 200;
      hijacked, headerSent, chunked := false, false, false;
      header, trailer := [], [];
      head, parts := [], [];
    }

    /** What handlers do to Header() and Trailer(). */
    method SetHeader(name: seq<byte>, value: seq<byte>)
      requires Valid()
      modifies this`header
      ensures Valid() && header == Set(old(header), name, value)
    {
      header := Set(header, name, value);
    }

    method AddHeader(name: seq<byte>, value: seq<byte>)
      requires Valid()
      modifies this`header
      ensures Valid() && header == Add(old(header), name, value)
    {
      header := Add(header, name, value);
    }

    method DelHeader(name: seq<byte>)
      requires Valid()
      modifies this`header
      ensures Valid() && header == Del(old(header), name)
    {
      header := Del(header, name);
    }

    method SetTrailer(name: seq<byte>, value: seq<byte>)
      requires Valid()
      modifies this`trailer
      ensures Valid() && trailer == Set(old(trailer), name, value)
    {
      trailer := Set(trailer, name, value);
    }

    method AddTrailer(name: seq<byte>, value: seq<byte>)
      requires Valid()
      modifies this`trailer
      ensures Valid() && trailer == Add(old(trailer), name, value)
    {
      trailer := Add(trailer, name, value);
    }

    method DelTrailer(name: seq<byte>)
      requires Valid()
      modifies this`trailer
      ensures Valid() && trailer == Del(old(trailer), name)
    {
      trailer := Del(trailer, name);
    }

    /** bufWriter.Write: the bytes are taken, and the writer may pass some on. */
    method Print(b: seq<byte>)
      requires attached && flushed <= |out|
      modifies this`out, this`flushed
      ensures out == old(out) + b && old(flushed) <= flushed <= |out|
    {
      out := out + b;
      var more: int := *;
      if flushed <= more <= |out| {
        flushed := more;
      }
    }

    /** bufWriter.Flush. */
    method PassOn()
      requires attached
      modifies this`flushed
      ensures flushed == |out|
    {
      flushed := |out|;
    }

    method WriteHeader(code: int)
      requires Valid()
      modifies this`statusCode
      ensures Valid() && statusCode == if hijacked || headerSent then old(statusCode) else code
    {
      if hijacked || headerSent {
        return;
      }
      statusCode := code;
    }

    function Current(): Settings
      reads this`header, this`trailer, this`statusCode
    {
      Settings(header, trailer, statusCode)
    }

    function HeadNow(): seq<seq<byte>>
      reads this`header, this`trailer, this`statusCode
    {
      HeadOf(Current(), date, statusText)
    }

    lemma HeadNowIsClean()
      requires Printable()
      ensures |HeadNow()| >= 2 && AllClean(HeadNow())
    {
      HeadIsClean(Current(), date, statusText);
    }

    lemma HeadJoined()
      ensures Join(HeadNow())
           == StatusLineOf(statusCode, statusText) + CRLF + Join(DateLinesOf(header, date)) + Join(LinesOf(header))
              + Join(EncodingLinesOf(Current(), ChunksFor(Current())))
    {
      hide StatusLineOf, DateLinesOf, EncodingLinesOf, Join, LinesOf;
      var status, dates := [StatusLineOf(statusCode, statusText)], DateLinesOf(header, date);
      JoinOne(StatusLineOf(statusCode, statusText));
      JoinAppend(status, dates);
      JoinAppend(status + dates, LinesOf(header));
      JoinAppend(status + dates + LinesOf(header), EncodingLinesOf(Current(), ChunksFor(Current())));
    }

    /** The bytes ensureHeaderSent writes before the empty line, and the body form it chooses. */
    method PrintHead() returns (buf: seq<byte>, chunks: bool)
      ensures chunks == ChunksFor(Current()) && buf == Join(HeadNow())
    {
      hide HeadNow, Join, LinesOf, LineOf, Itoa, Get;
      var text := statusText(statusCode);
      if text == [] {
        text := UNKNOWN_STATUS + Itoa(statusCode);
      }
      buf := PROTO + Itoa(statusCode) + [32] + text + CRLF;
      ghost var status := StatusLineOf(statusCode, statusText);
      JoinNone();
      if Get(header, NAME_DATE) == [] {
        JoinOne(LineOf(NAME_DATE, date));
        buf := buf + LineOf(NAME_DATE, date) + CRLF;
      }
      assert buf == status + CRLF + Join(DateLinesOf(header, date));
      var hasTrailers := |trailer| > 0;
      if Get(header, NAME_CONTENT_LENGTH) == [] || hasTrailers {
        chunks := true;
      } else {
        chunks := false;
      }
      buf := buf + Join(LinesOf(header));
      if chunks && Get(header, NAME_TRANSFER_ENCODING) == [] {
        JoinOne(EncodingLinesOf(Current(), chunks)[0]);
        if hasTrailers {
          buf := buf + (TRANSFER_ENCODING + [32] + CHUNKED + COMMA_TRAILERS + CRLF);
        } else {
          buf := buf + (TRANSFER_ENCODING + [32] + CHUNKED + CRLF);
        }
      }
      HeadJoined();
    }

    /** Lines 322-377: the head and the empty line. */
    method PrintHeadLines()
      requires attached && flushed <= |out|
      modifies this`out, this`flushed, this`chunked
      ensures chunked == ChunksFor(Current()) && out == old(out) + Response(HeadNow(), chunked, []) && flushed <= |out|
    {
      hide HeadNow, Join, ChunksFor, Response;
      var buf;
      buf, chunked := PrintHead();
      Print(buf);
      Print(CRLF);
      HeadOnly(old(out), HeadNow(), chunked);
    }

    /** ensureHeaderSent. */
    method EnsureHeaderSent()
      requires Valid() && !hijacked
      modifies this`out, this`flushed, this`chunked, this`headerSent, this`head
      ensures Valid() && headerSent
      ensures old(headerSent) ==>
                out == old(out) && flushed == old(flushed) && chunked == old(chunked) && head == old(head)
      ensures !old(headerSent) ==> chunked == ChunksFor(Current()) && head == HeadNow()
    {
      if headerSent {
        return;
      }
      hide Printable, HeadNow, HeadOf, Join, CleanLine, Response, ChunksFor, GoodParts, AllClean;
      HeadNowIsClean();
      PrintHeadLines();
      head := HeadNow();
      headerSent := true;
    }

    /** Lines 184-196: before the first write, a Content-Type is detected and the head is printed. */
    method FirstWrite(p: seq<byte>)
      requires Valid() && !hijacked && !headerSent
      modifies this`header, this`out, this`flushed, this`chunked, this`headerSent, this`head
      ensures Valid() && headerSent && header == Sniffed(old(header), p, detect)
      ensures chunked == ChunksFor(Current()) && head == HeadNow()
    {
      hide Printed, HeadNow, ChunksFor, Set;
      if Get(header, NAME_CONTENT_TYPE) == [] {
        var sniffLen := if |p| < SNIFF_LENGTH then |p| else SNIFF_LENGTH;
        assert |p| < SNIFF_LENGTH ==> p[..sniffLen] == p;
        SetHeader(NAME_CONTENT_TYPE, detect(p[..sniffLen]));
      }
      EnsureHeaderSent();
    }

    /** Write and WriteString, which differ only in the type of p. */
    method Write(p: seq<byte>) returns (r: Outcome)
      requires Valid() && |p| <= MAX_INT - 2
      modifies this`header, this`out, this`flushed, this`chunked, this`headerSent, this`head, this`parts
      ensures Valid()
      ensures hijacked ==> r == HijackedError && parts == old(parts)
      ensures !hijacked ==> r == Wrote(|p|) && parts == old(parts) + NonEmpty(p)
      ensures hijacked || p == [] ==> headerSent == old(headerSent) && out == old(out) && flushed == old(flushed)
      ensures old(headerSent) ==> headerSent && chunked == old(chunked) && head == old(head)
      ensures !hijacked && p != [] ==> headerSent
      ensures header == if headerSent && !old(headerSent) then Sniffed(old(header), p, detect) else old(header)
      ensures headerSent && !old(headerSent) ==> chunked == ChunksFor(Current()) && head == HeadNow()
    {
      hide Printable, Printed;
      if hijacked {
        return HijackedError;
      }
      if |p| == 0 {
        assert parts + [] == parts;
        return Wrote(0);
      }
      if !headerSent {
        FirstWrite(p);
      }
      Emit(p);
      return Wrote(|p|);
    }

    /** One non-empty piece: as a chunk, or as it is. */
    method Emit(p: seq<byte>)
      requires Valid() && !hijacked && headerSent && p != [] && |p| <= MAX_INT - 2
      modifies this`out, this`flushed, this`parts
      ensures Valid() && parts == old(parts) + [p]
    {
      hide Printable, Response, CleanLine;
      if chunked {
        Print(NumeralOf(|p|, 16));
        Print(CRLF);
        Print(p);
        Print(CRLF);
      } else {
        Print(p);
      }
      ResponseAppend(head, chunked, parts, p);
      parts := parts + [p];
    }

    /** A piece that the connection reads for itself goes past the bufio.Writer, which must be empty. */
    method EmitDirectly(p: seq<byte>)
      requires Valid() && !hijacked && headerSent && !chunked && p != [] && |p| <= MAX_INT - 2 && flushed == |out|
      modifies this`out, this`flushed, this`parts
      ensures Valid() && parts == old(parts) + [p] && flushed == |out|
    {
      hide Printable, Response, CleanLine;
      out := out + p;
      flushed := |out|;
      ResponseAppend(head, chunked, parts, p);
      parts := parts + [p];
    }

    /** One pass of the copy loop, lines 251-286, or of the connection's own. */
    method CopyOne(source: Source, directly: bool) returns (reading: Reading)
      requires Valid() && !hijacked && headerSent && (directly ==> !chunked && flushed == |out|)
      requires source.script != [] ==> |source.script[0].data| <= MAX_INT - 2
      modifies this`out, this`flushed, this`parts, source
      ensures Valid() && parts == old(parts) + NonEmpty(reading.data) && (directly ==> flushed == |out|)
      ensures old(source.script) == [] ==> reading == Reading([], Eof) && source.script == []
      ensures old(source.script) != [] ==>
                reading == old(source.script)[0] && source.script == old(source.script)[1..]
    {
      hide Printed, Printable;
      reading := source.Read();
      if |reading.data| > 0 {
        if directly {
          EmitDirectly(reading.data);
        } else {
          Emit(reading.data);
        }
      } else {
        assert parts + [] == parts;
      }
    }

    /** The copy loop. */
    method CopyAll(source: Source, directly: bool) returns (r: Outcome)
      requires Valid() && !hijacked && headerSent && (directly ==> !chunked && flushed == |out|)
      requires forall i :: 0 <= i < |source.script| ==> |source.script[i].data| <= MAX_INT - 2
      modifies this`out, this`flushed, this`parts, source
      ensures Valid() && parts == old(parts) + PiecesOf(old(source.script)) && (directly ==> flushed == |out|)
      ensures r == CopyOutcome(old(source.script))
    {
      hide Valid, Concat, PiecesOf, Breaks;
      var n := 0;
      ghost var script := source.script;
      assert parts + PiecesOf(script) == old(parts) + PiecesOf(script);
      while true
        invariant Valid() && headerSent && (directly ==> flushed == |out|)
        invariant parts + PiecesOf(source.script) == old(parts) + PiecesOf(script)
        invariant n + |Concat(PiecesOf(source.script))| == |Concat(PiecesOf(script))|
        invariant Breaks(source.script) == Breaks(script)
        invariant forall i :: 0 <= i < |source.script| ==> |source.script[i].data| <= MAX_INT - 2
        decreases |source.script|
      {
        ghost var was, before := parts, source.script;
        var reading := CopyOne(source, directly);
        OneReading(before, reading, source.script, was);
        n := n + |reading.data|;
        if reading.end != More {
          if reading.end != Eof {
            return SourceError(n);
          }
          return Wrote(n);
        }
      }
    }

    /** Lines 234-244, and the copy loop where the connection does not copy for itself. */
    method CopyPlain(source: Source) returns (r: Outcome)
      requires Valid() && !hijacked && headerSent && !chunked
      requires forall i :: 0 <= i < |source.script| ==> |source.script[i].data| <= MAX_INT - 2
      modifies this`out, this`flushed, this`parts, source
      ensures Valid() && parts == old(parts) + PiecesOf(old(source.script)) && (delegates ==> flushed == |out|)
      ensures r == CopyOutcome(old(source.script))
    {
      hide Printed, Printable, CopyOutcome, PiecesOf;
      PassOn();
      r := CopyAll(source, delegates);
    }

    /** ReadFrom: every non-empty read becomes one piece.  Without chunks the bufio.Writer is flushed first, and the
        connection copies for itself if it can. */
    method ReadFrom(source: Source) returns (r: Outcome)
      requires Valid()
      requires forall i :: 0 <= i < |source.script| ==> |source.script[i].data| <= MAX_INT - 2
      modifies this`out, this`flushed, this`chunked, this`headerSent, this`head, this`parts, source
      ensures Valid()
      ensures hijacked ==> r == HijackedError && out == old(out) && flushed == old(flushed) && parts == old(parts)
      ensures hijacked ==> headerSent == old(headerSent)
      ensures !hijacked ==> headerSent && parts == old(parts) + PiecesOf(old(source.script))
      ensures !hijacked ==> r == CopyOutcome(old(source.script))
      ensures !hijacked && !chunked && delegates ==> flushed == |out|
      ensures old(headerSent) ==> headerSent && chunked == old(chunked) && head == old(head)
      ensures headerSent && !old(headerSent) ==> chunked == ChunksFor(Current()) && head == HeadNow()
    {
      if hijacked {
        return HijackedError;
      }
      hide Valid, ChunksFor, HeadNow, CopyOutcome, PiecesOf;
      if !headerSent {
        EnsureHeaderSent();
      }
      if !chunked {
        r := CopyPlain(source);
      } else {
        r := CopyAll(source, false);
      }
    }

    method Flush()
      requires Valid()
      modifies this`out, this`flushed, this`chunked, this`headerSent, this`head
      ensures Valid() && headerSent == (old(headerSent) || !hijacked) && flushed == |out|
      ensures headerSent == old(headerSent) ==> out == old(out) && chunked == old(chunked) && head == old(head)
      ensures headerSent && !old(headerSent) ==> chunked == ChunksFor(Current()) && head == HeadNow()
    {
      if hijacked {
        return;
      }
      EnsureHeaderSent();
      PassOn();
    }

    /** Hijack: everything written has reached the connection, and from here on the writer only answers with
        errors. */
    method Hijack() returns (ok: bool)
      requires Valid()
      modifies this`hijacked, this`flushed, this`attached
      ensures Valid() && hijacked && !attached && flushed == |out| && ok == !old(hijacked)
    {
      if hijacked {
        return false;
      }
      hijacked := true;
      PassOn();
      attached := false;
      return true;
    }

    /** Lines 498-505: with no body written, a zero length is declared. */
    method EnsureHeaderAtEnd()
      requires Valid() && !hijacked
      modifies this`out, this`flushed, this`chunked, this`headerSent, this`head, this`header
      ensures Valid() && headerSent
      ensures old(headerSent) ==>
                out == old(out) && chunked == old(chunked) && head == old(head) && header == old(header)
      ensures !old(headerSent) ==>
                && header == Set(old(header), NAME_CONTENT_LENGTH, [48])
                && chunked == ChunksFor(Current()) && head == HeadNow()
    {
      if !headerSent {
        hide Printed;
        SetHeader(NAME_CONTENT_LENGTH, [48]);
        EnsureHeaderSent();
      }
    }

    /** EndResponse. */
    method EndResponse()
      requires Valid()
      modifies this`out, this`flushed, this`chunked, this`headerSent, this`head, this`header
      ensures flushed == |out|
      ensures hijacked ==> out == old(out) && header == old(header) && chunked == old(chunked) && head == old(head)
      ensures !hijacked ==> headerSent && |head| >= 2 && AllClean(head) && AllClean(LinesOf(trailer))
      ensures !hijacked ==> out == base + Response(head, chunked, parts) + ResponseEnd(chunked, LinesOf(trailer))
      ensures !hijacked && old(headerSent) ==> chunked == old(chunked) && head == old(head) && header == old(header)
      ensures !hijacked && !old(headerSent) ==>
                && header == Set(old(header), NAME_CONTENT_LENGTH, [48])
                && chunked == ChunksFor(Current()) && head == HeadNow()
    {
      if hijacked {
        return;
      }
      PrintedIsClean(trailer);
      hide Response, ResponseEnd, CleanLine, Set, HeadNow, ChunksFor, LinesOf;
      EnsureHeaderAtEnd();
      PrintEnd();
      PassOn();
    }

    /** Lines 508-527: the last chunk, with the trailers there are by now. */
    method PrintEnd()
      requires attached && flushed <= |out|
      modifies this`out, this`flushed
      ensures out == old(out) + ResponseEnd(chunked, LinesOf(trailer)) && flushed <= |out|
    {
      hide Join, LinesOf;
      if chunked {
        if |trailer| > 0 {
          Print(LAST_CHUNK);
          Print(Join(LinesOf(trailer)));
          Print(CRLF);
        } else {
          JoinNone();
          NoLines(trailer);
          Print(LAST_CHUNK + CRLF);
        }
      }
    }
  }

  // ----- what the printing lemmas above need

  lemma HeadOnly(base: seq<byte>, head: seq<seq<byte>>, chunked: bool)
    ensures base + Join(head) + CRLF == base + Response(head, chunked, [])
  {
    assert Response(head, chunked, []) == Join(head) + CRLF;
  }

  lemma ResponseAppend(head: seq<seq<byte>>, chunked: bool, parts: seq<seq<byte>>, p: seq<byte>)
    ensures Response(head, chunked, parts + [p])
         == Response(head, chunked, parts) + if chunked then ChunkOf(p) else p
  {
    ChunksAppend(parts, p);
    ConcatAppend(parts, p);
  }

  lemma JoinNone()
    ensures Join([]) == []
  {
  }

  lemma JoinOne(line: seq<byte>)
    ensures Join([line]) == line + CRLF
  {
    assert Join([line]) == line + CRLF + Join([line][1..]);
  }

  lemma {:induction false} JoinAppend(a: seq<seq<byte>>, b: seq<seq<byte>>)
    ensures Join(a + b) == Join(a) + Join(b)
    decreases |a|
  {
    if a == [] {
      assert a + b == b;
    } else {
      JoinAppend(a[1..], b);
      assert (a + b)[1..] == a[1..] + b;
    }
  }

  lemma {:induction false} ChunksAppend(parts: seq<seq<byte>>, p: seq<byte>)
    ensures ChunksOf(parts + [p]) == ChunksOf(parts) + ChunkOf(p)
    decreases |parts|
  {
    hide ChunkOf;
    if parts == [] {
      assert parts + [p] == [p] && [p][1..] == [];
    } else {
      ChunksAppend(parts[1..], p);
      assert (parts + [p])[1..] == parts[1..] + [p];
    }
  }

  lemma {:induction false} ConcatSplit(a: seq<seq<byte>>, b: seq<seq<byte>>)
    ensures Concat(a + b) == Concat(a) + Concat(b)
    decreases |a|
  {
    if a == [] {
      assert a + b == b;
    } else {
      ConcatSplit(a[1..], b);
      assert (a + b)[1..] == a[1..] + b;
    }
  }

  lemma ConcatOne(p: seq<byte>)
    ensures Concat([p]) == p && Concat([]) == []
  {
    assert Concat([p]) == p + Concat([p][1..]);
  }

  lemma ConcatAppend(parts: seq<seq<byte>>, p: seq<byte>)
    ensures Concat(parts + [p]) == Concat(parts) + p
  {
    ConcatSplit(parts, [p]);
    assert Concat([p]) == p + Concat([p][1..]);
  }

  lemma NumeralHasNoCr(n: nat)
    ensures CR !in NumeralOf(n, 10)
  {
    NumeralRoundTrip(n, 10);
    NumeralsArePlain(NumeralOf(n, 10), 10);
  }

  lemma NoLines(fields: seq<Field>)
    requires fields == []
    ensures LinesOf(fields) == []
  {
  }

  lemma StatusIsClean(statusCode: int, statusText: int -> seq<byte>)
    requires forall code :: CR !in statusText(code)
    ensures CleanLine(StatusLineOf(statusCode, statusText))
  {
    NumeralHasNoCr(if statusCode < 0 then -statusCode else statusCode);
    WithoutCr(StatusLineOf(statusCode, statusText));
  }

  lemma EncodingIsClean(s: Settings, chunks: bool)
    ensures AllClean(EncodingLinesOf(s, chunks))
  {
    WithoutCr(TRANSFER_ENCODING + [32] + CHUNKED);
    WithoutCr(TRANSFER_ENCODING + [32] + CHUNKED + COMMA_TRAILERS);
  }

  lemma BothClean(a: seq<seq<byte>>, b: seq<seq<byte>>)
    requires AllClean(a) && AllClean(b)
    ensures AllClean(a + b)
  {
    hide CleanLine;
    assert forall i :: 0 <= i < |b| ==> (a + b)[|a| + i] == b[i];
  }

  /** A head is a status line and at least one more line, whatever the handler set. */
  lemma HeadIsClean(s: Settings, date: seq<byte>, statusText: int -> seq<byte>)
    requires CleanLine(LineOf(NAME_DATE, date)) && forall code :: CR !in statusText(code)
    ensures |HeadOf(s, date, statusText)| >= 2 && AllClean(HeadOf(s, date, statusText))
  {
    hide StatusLineOf, EncodingLinesOf, LinesOf, CleanLine, LineOf, Get;
    StatusIsClean(s.statusCode, statusText);
    PrintedIsClean(s.header);
    EncodingIsClean(s, ChunksFor(s));
    var status, dates := [StatusLineOf(s.statusCode, statusText)], DateLinesOf(s.header, date);
    BothClean(status, dates);
    BothClean(status + dates, LinesOf(s.header));
    BothClean(status + dates + LinesOf(s.header), EncodingLinesOf(s, ChunksFor(s)));
    if dates == [] {
      DateIsPrinted(s.header);
    }
  }

  lemma DateIsPrinted(header: seq<Field>)
    requires Get(header, NAME_DATE) != []
    ensures LinesOf(header) != []
  {
    CanonicalTwice(NAME_DATE);
    ValueIsPrinted(header, Canonical(NAME_DATE));
  }

  /** A response that says nothing of its body and has none is printed plain, with a zero length. */
  lemma NoBodyIsPlain(s: Settings)
    requires s.trailer == []
    ensures !ChunksFor(s.(header := Set(s.header, NAME_CONTENT_LENGTH, [48])))
  {
    KeyLaws(s.header, Canonical(NAME_CONTENT_LENGTH), [48], []);
  }
}
