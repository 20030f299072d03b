/** The header block of a request: its lines, and how they fix the framing of the body. */
module HeaderLines {
  import opened Bytes
  import opened Numerals

  const CONTENT_LENGTH: seq<byte> := // "Content-Length:"
    [67, 111, 110, 116, 101, 110, 116, 45, 76, 101, 110, 103, 116, 104, 58]
  const TRANSFER_ENCODING: seq<byte> := // "Transfer-Encoding:"
    [84, 114, 97, 110, 115, 102, 101, 114, 45, 69, 110, 99, 111, 100, 105, 110, 103, 58]
  const CHUNKED: seq<byte> := // "chunked"
    [99, 104, 117, 110, 107, 101, 100]

  /** What the scan of a header block settles. */
  datatype Framing =
    | Malformed(error: ParseError)
    | Body(contentLength: int, chunked: bool)

  /** What one line contributes. */
  datatype Effect = SetsLength(n: nat) | Bad(error: ParseError) | Chunks | Ignored

  predicate StartsFold(line: seq<byte>, name: seq<byte>)
  {
    |line| >= |name| && EqualFold(line[..|name|], name)
  }

  /** A name with nothing after its colon is not recognised. */
  predicate HasField(line: seq<byte>, name: seq<byte>)
  {
    |line| > |name| && StartsFold(line, name)
  }

  ghost function EffectOf(line: seq<byte>): Effect
  {
    if HasField(line, CONTENT_LENGTH) then
      match ParseSigned(TrimSpace(line[|CONTENT_LENGTH|..]))
      case Failed(e) => Bad(e)
      case Number(n) => if n < 0 then Bad(ErrSyntax) else SetsLength(n)
    else if HasField(line, TRANSFER_ENCODING)
         && ContainsFold(TrimSpace(line[|TRANSFER_ENCODING|..]), CHUNKED) then Chunks
    else Ignored
  }

  /** The lines the loop visits: CRLF separated, with no empty last line. */
  function Lines(h: seq<byte>): seq<seq<byte>>
    decreases |h|
  {
    if h == [] then []
    else
      var i := FirstCrlf(h, 0);
      if i == -1 then [h] else [h[..i]] + Lines(h[i + 2..])
  }

  ghost function FoldLines(lines: seq<seq<byte>>, contentLength: int, chunked: bool): Framing
  {
    if lines == [] then Body(contentLength, chunked)
    else
      match EffectOf(lines[0])
      case Bad(e) => Malformed(e)
      case SetsLength(n) => FoldLines(lines[1..], n, chunked)
      case Chunks => FoldLines(lines[1..], contentLength, true)
      case Ignored => FoldLines(lines[1..], contentLength, chunked)
  }

  ghost function FramingOf(headerLines: seq<byte>): Framing
  {
    FoldLines(Lines(headerLines), -1, false)
  }

  /** i is the last line that sets a length. */
  ghost predicate LastLength(lines: seq<seq<byte>>, i: int)
  {
    0 <= i < |lines| && EffectOf(lines[i]).SetsLength?
    && forall j :: i < j < |lines| ==> !EffectOf(lines[j]).SetsLength?
  }

  /** The framing without the loop: no bad line, the last length wins, one chunked line is enough. */
  lemma {:induction false} FramingMeaning(lines: seq<seq<byte>>, cl: int, ch: bool)
    ensures FoldLines(lines, cl, ch).Body? <==> forall i :: 0 <= i < |lines| ==> !EffectOf(lines[i]).Bad?
    ensures FoldLines(lines, cl, ch).Body? ==>
              (FoldLines(lines, cl, ch).chunked <==> ch || exists i :: 0 <= i < |lines| && EffectOf(lines[i]).Chunks?)
    ensures FoldLines(lines, cl, ch).Body? ==>
              && (forall i :: LastLength(lines, i) ==> FoldLines(lines, cl, ch).contentLength == EffectOf(lines[i]).n)
              && ((forall i :: 0 <= i < |lines| ==> !EffectOf(lines[i]).SetsLength?) ==>
                    FoldLines(lines, cl, ch).contentLength == cl)
    decreases |lines|
  {
    hide EffectOf;
    if lines != [] {
      var rest := lines[1..];
      var e := EffectOf(lines[0]);
      var cl', ch' := if e.SetsLength? then e.n else cl, ch || e.Chunks?;
      FramingMeaning(rest, cl', ch');
      assert forall i :: 0 <= i < |rest| ==> rest[i] == lines[i + 1];
      assert forall i :: 1 <= i < |lines| ==> lines[i] == rest[i - 1];
      forall i | LastLength(lines, i)
        ensures i > 0 ==> LastLength(rest, i - 1)
        ensures i == 0 ==> forall k :: 0 <= k < |rest| ==> !EffectOf(rest[k]).SetsLength?
      {
      }
    }
  }

  /** The first bad line, and its error. */
  ghost predicate FirstBad(lines: seq<seq<byte>>, i: int, e: ParseError)
  {
    0 <= i < |lines| && EffectOf(lines[i]) == Bad(e) && forall j :: 0 <= j < i ==> !EffectOf(lines[j]).Bad?
  }

  /** A refusal is that of the first bad line. */
  lemma {:induction false} RefusalMeaning(lines: seq<seq<byte>>, cl: int, ch: bool, e: ParseError)
    ensures FoldLines(lines, cl, ch) == Malformed(e) <==> exists i :: FirstBad(lines, i, e)
    decreases |lines|
  {
    hide EffectOf;
    if lines != [] {
      var rest := lines[1..];
      var f := EffectOf(lines[0]);
      if f.Bad? {
        assert f == Bad(e) ==> FirstBad(lines, 0, e);
        assert forall i :: FirstBad(lines, i, e) ==> i == 0;
      } else {
        RefusalMeaning(rest, if f.SetsLength? then f.n else cl, ch || f.Chunks?, e);
        assert forall i :: 0 <= i < |rest| ==> rest[i] == lines[i + 1];
        assert forall i :: FirstBad(lines, i, e) ==> i > 0 && FirstBad(rest, i - 1, e);
        assert forall i :: FirstBad(rest, i, e) ==> FirstBad(lines, i + 1, e);
      }
    }
  }

  /** The header loop of CheckRequest, lines 51-115. */
  method ScanHeaderLines(headerLines: seq<byte>) returns (r: Framing)
    ensures r == FramingOf(headerLines)
  {
    hide ParseSigned, TrimSpace, ContainsFold, FoldedAt;
    var contentLength := -1;
    var isChunked := false;
    var cur := headerLines;
    while |cur| > 0
      invariant FoldLines(Lines(cur), contentLength, isChunked) == FramingOf(headerLines)
      decreases |cur|
    {
      var line;
      ghost var rest := Lines(cur)[1..];
      var idx := FirstCrlf(cur, 0);
      if idx != -1 {
        line := cur[..idx];
        cur := cur[idx + 2..];
      } else {
        line := cur;
        cur := [];
      }
      assert rest == Lines(cur);

      if |line| > |CONTENT_LENGTH| && EqualFold(line[..|CONTENT_LENGTH|], CONTENT_LENGTH) {
        var val := TrimSpace(line[|CONTENT_LENGTH|..]);
        var cl := ParseInt(val);
        if cl.Failed? {
          return Malformed(cl.error);
        }
        if cl.value < 0 {
          return Malformed(ErrSyntax);
        }
        contentLength := cl.value;
        continue;
      }

      if |line| > |TRANSFER_ENCODING| && EqualFold(line[..|TRANSFER_ENCODING|], TRANSFER_ENCODING) {
        var val := TrimSpace(line[|TRANSFER_ENCODING|..]);
        TooShort(val);
        if |val| >= |CHUNKED| {
          if EqualFold(val, CHUNKED) {
            LowerIsStable(val);
            isChunked := true;
          } else {
            var found := ContainsCaseInsensitive(val, CHUNKED);
            if found {
              isChunked := true;
            }
          }
        }
      }
    }
    return Body(contentLength, isChunked);
  }

  lemma LowerIsStable(val: seq<byte>)
    requires EqualFold(val, CHUNKED)
    ensures ContainsFold(val, CHUNKED)
  {
    forall j | 0 <= j < |CHUNKED|
      ensures Lower(val[0 + j]) == CHUNKED[j]
    {
      assert Lower(CHUNKED[j]) == CHUNKED[j];
    }
    assert FoldedAt(val, CHUNKED, 0);
  }

  /** A short value does not contain it. */
  lemma TooShort(val: seq<byte>)
    ensures |val| < |CHUNKED| ==> !ContainsFold(val, CHUNKED)
  {
  }
}
