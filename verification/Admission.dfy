/** The admission decision of pkg/engine/engine.go: a cheap look at the first 256 bytes, and the
    whole buffer only when that look settles nothing. */
module Admission {
  import opened Bytes
  import opened HeaderLines
  import opened RequestCheck
  import opened ExactFraming
  import opened HeaderPrint

  const FIRST_PEEK := 256

  /** What serveHTTP does with the connection: hand the request to the handler, close, or return and wait. */
  datatype Decision = Dispatch | Close | Wait

  /** No header line starts with a framing field's name - not even one with nothing after the colon. */
  ghost predicate NoFramingField(lines: seq<seq<byte>>)
  {
    forall i :: 0 <= i < |lines| ==> !StartsFold(lines[i], CONTENT_LENGTH) && !StartsFold(lines[i], TRANSFER_ENCODING)
  }

  ghost predicate Bypass(d: seq<byte>)
  {
    HeaderFound(d) && !NoHeaderLine(d)
    && var h := d[..FirstTerm(d, 0)];
       NoFramingField(Lines(h[FirstCrlf(h, 0) + 2..]))
  }

  method ShouldBypassFullRequestCheck(peekBuf: seq<byte>) returns (bypass: bool)
    ensures bypass <==> Bypass(peekBuf)
  {
    var headerEndIdx := FirstTerm(peekBuf, 0);
    if headerEndIdx == -1 || headerEndIdx > MAX_HEADER_SIZE {
      return false;
    }
    var headers := peekBuf[..headerEndIdx];
    var idx := FirstCrlf(headers, 0);
    if idx == -1 {
      return false;
    }
    bypass := NoFramingFieldIn(headers[idx + 2..]);
  }

  lemma NoFramingFieldCons(line: seq<byte>, rest: seq<seq<byte>>)
    ensures NoFramingField([line] + rest)
       <==> !StartsFold(line, CONTENT_LENGTH) && !StartsFold(line, TRANSFER_ENCODING) && NoFramingField(rest)
  {
    var lines := [line] + rest;
    assert lines[0] == line;
    assert forall i :: 0 <= i < |rest| ==> lines[i + 1] == rest[i];
    assert forall i :: 1 <= i < |lines| ==> lines[i] == rest[i - 1];
  }

  /** The loop of lines 264-280. */
  method NoFramingFieldIn(headerLines: seq<byte>) returns (none: bool)
    ensures none <==> NoFramingField(Lines(headerLines))
  {
    var cur := headerLines;
    while |cur| > 0
      invariant NoFramingField(Lines(headerLines)) <==> NoFramingField(Lines(cur))
      decreases |cur|
    {
      var lineEnd := FirstCrlf(cur, 0);
      var line := cur;
      ghost var lines := Lines(cur);
      if lineEnd >= 0 {
        line := cur[..lineEnd];
        cur := cur[lineEnd + 2..];
      } else {
        cur := [];
      }
      assert lines == [line] + Lines(cur);
      NoFramingFieldCons(line, Lines(cur));
      if |line| >= |CONTENT_LENGTH| && EqualFold(line[..|CONTENT_LENGTH|], CONTENT_LENGTH) {
        return false;
      }
      if |line| >= |TRANSFER_ENCODING| && EqualFold(line[..|TRANSFER_ENCODING|], TRANSFER_ENCODING) {
        return false;
      }
    }
    return true;
  }

  lemma {:induction false} NothingFramed(lines: seq<seq<byte>>)
    requires NoFramingField(lines)
    ensures FoldLines(lines, -1, false) == Body(-1, false)
    decreases |lines|
  {
    if lines != [] {
      assert EffectOf(lines[0]) == Ignored;
      NothingFramed(lines[1..]);
    }
  }

  /** A bypassed buffer holds a whole request with no body. */
  lemma BypassIsComplete(d: seq<byte>)
    requires Bypass(d)
    ensures Check(d) == Complete(FirstTerm(d, 0) + 4)
  {
    hide FirstTerm, FirstCrlf, Lines, FoldLines, NoFramingField;
    var h := d[..FirstTerm(d, 0)];
    NothingFramed(Lines(h[FirstCrlf(h, 0) + 2..]));
  }

  /** A printed head is bypassed exactly when no line after the first starts with the name of a framing field. */
  lemma BypassIff(head: seq<seq<byte>>, body: seq<byte>)
    requires |head| >= 2 && AllClean(head) && |Join(head)| - 2 <= MAX_HEADER_SIZE
    ensures Bypass(Join(head) + CRLF + body) <==>
            forall i :: 1 <= i < |head| ==>
              !StartsFold(head[i], CONTENT_LENGTH) && !StartsFold(head[i], TRANSFER_ENCODING)
  {
    hide FirstTerm, FirstCrlf, Join;
    HeadLines(head, body);
    var lines := head[1..];
    assert forall i :: 1 <= i < |head| ==> head[i] == lines[i - 1];
    assert forall i :: 0 <= i < |lines| ==> lines[i] == head[i + 1];
  }

  /** A verdict on the first peek that ends the look is the verdict on everything available. */
  lemma PeekSettles(available: seq<byte>, k: nat)
    requires k <= |available| && k <= MAX_HEADER_SIZE && Check(available[..k]) != Incomplete
    ensures Check(available) == Check(available[..k])
  {
    var peek := available[..k];
    if Check(peek).Complete? {
      SizeIsInTheBuffer(peek);
    }
    CheckLocal(peek, available, k);
  }

  /** The staged decision is the decision one check of the whole buffer would make: a whole request is handed to the
      handler, a refused one closes the connection, and anything else waits. */
  method Admit(available: seq<byte>) returns (decision: Decision)
    ensures decision == Dispatch <==> Check(available).Complete?
    ensures decision == Close <==> Check(available).Rejected?
    ensures decision == Wait <==> Check(available) == Incomplete
  {
    hide Check, Bypass;
    if |available| == 0 {
      EmptyWaits();
      return Wait;
    }
    var peekLen := |available|;
    if peekLen > FIRST_PEEK {
      peekLen := FIRST_PEEK;
    }
    var peekBuf := available[..peekLen];
    if Check(peekBuf) != Incomplete {
      PeekSettles(available, peekLen);
    }
    assert peekLen == |available| ==> peekBuf == available;
    var bypass := ShouldBypassFullRequestCheck(peekBuf);
    if bypass {
      BypassIsComplete(peekBuf);
    } else {
      var check := CheckRequest(peekBuf);
      if check.Incomplete? && peekLen < |available| {
        peekBuf := available;
        check := CheckRequest(peekBuf);
      }
      if check.Rejected? {
        return Close;
      }
      if !check.Complete? {
        return Wait;
      }
    }
    return Dispatch;
  }

  lemma EmptyWaits()
    ensures Check([]) == Incomplete
  {
  }
}
