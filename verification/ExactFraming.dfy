/** What CheckRequest promises over all buffers: an accepted request ends at one place however much
    more has arrived, nothing shorter is accepted, rejections are final, and every buffer can still
    be decided - each with the exact condition where the code misses it. */
module ExactFraming {
  import opened Bytes
  import opened Numerals
  import opened HeaderLines
  import opened RequestCheck

  const EMPTY_LINE: seq<byte> := [13, 10, 13, 10]

  /** The end of a usable header block is in the buffer. */
  ghost predicate HeaderFound(d: seq<byte>)
  {
    0 <= FirstTerm(d, 0) <= MAX_HEADER_SIZE
  }

  /** The header block is a request line alone. */
  ghost predicate NoHeaderLine(d: seq<byte>)
  {
    HeaderFound(d) && FirstCrlf(d[..FirstTerm(d, 0)], 0) == -1
  }

  ghost function HeaderFraming(d: seq<byte>): Framing
    requires HeaderFound(d) && !NoHeaderLine(d)
  {
    var h := d[..FirstTerm(d, 0)];
    FramingOf(h[FirstCrlf(h, 0) + 2..])
  }

  /** The body is framed by a Content-Length so large that adding the header size overflows an int. */
  ghost predicate LengthWraps(d: seq<byte>)
  {
    HeaderFound(d) && !NoHeaderLine(d)
    && HeaderFraming(d).Body? && !HeaderFraming(d).chunked
    && FirstTerm(d, 0) + 4 + HeaderFraming(d).contentLength > MAX_INT
  }

  // ----- what a verdict depends on

  lemma StepLocal(a: seq<byte>, b: seq<byte>, n: nat, off: nat)
    requires Agree(a, b, n) && off <= n
    requires ChunkStep(a, off) != Stop(Incomplete)
    requires ChunkStep(a, off).Next? ==> ChunkStep(a, off).off <= n
    requires ChunkStep(a, off).Stop? ==>
               (match ChunkStep(a, off).verdict
                case Complete(m) => m <= n
                case _ => n == |a|)
    ensures ChunkStep(b, off) == ChunkStep(a, off)
  {
    hide TrimSpace, Before, ParseDigits;
    var i := FirstCrlf(a, off);
    var size := ChunkSize(a[off..i]);
    FirstCrlfLocal(a, b, n, off);
    assert a[off..i] == b[off..i];
    if size == Number(0) && !CrlfAt(a, i + 2) {
      FirstTermLocal(a, b, n, i + 2);
    }
  }

  lemma {:induction false} ScanBounds(a: seq<byte>, off: nat)
    requires off <= |a| && ScanChunks(a, off).Complete?
    ensures off < ScanChunks(a, off).bytes <= |a|
    decreases |a| - off
  {
    var step := ChunkStep(a, off);
    if step.Next? {
      ScanBounds(a, step.off);
    }
  }

  /** A chunk scan that stops depends only on the bytes before the point where it stops. */
  lemma {:induction false} ScanLocal(a: seq<byte>, b: seq<byte>, n: nat, off: nat)
    requires Agree(a, b, n) && off <= n
    requires match ScanChunks(a, off)
             case Incomplete => false
             case Complete(m) => m <= n
             case Rejected(_) => n == |a|
    ensures ScanChunks(b, off) == ScanChunks(a, off)
    decreases |a| - off
  {
    var step := ChunkStep(a, off);
    if step.Next? {
      if ScanChunks(a, step.off).Complete? {
        ScanBounds(a, step.off);
      }
      StepLocal(a, b, n, off);
      ScanLocal(a, b, n, step.off);
    } else {
      StepLocal(a, b, n, off);
    }
  }

  /** The same for the whole check, once the header block is there. */
  lemma CheckLocal(a: seq<byte>, b: seq<byte>, n: nat)
    requires Agree(a, b, n) && HeaderFound(a) && FirstTerm(a, 0) + 4 <= n
    requires match Check(a)
             case Incomplete => false
             case Complete(m) => m <= n
             case Rejected(_) => n == |a|
    ensures Check(b) == Check(a) && FirstTerm(b, 0) == FirstTerm(a, 0)
    ensures LengthWraps(b) == LengthWraps(a)
  {
    hide FoldLines, ChunkStep;
    var i := FirstTerm(a, 0);
    FirstTermLocal(a, b, n, 0);
    assert a[..i] == b[..i];
    var f := HeaderFraming(a);
    if f.Body? && f.chunked {
      ScanLocal(a, b, n, i + 4);
    }
  }

  // ----- exact framing

  /** The size an accepted request is said to have lies in the buffer exactly when the sum on line 177 does
      not wrap; a wrapped size is negative. */
  lemma SizeIsInTheBuffer(d: seq<byte>)
    requires Check(d).Complete?
    ensures HeaderFound(d)
    ensures 0 < Check(d).bytes <= |d| <==> !LengthWraps(d)
    ensures LengthWraps(d) ==> Check(d).bytes < 0
    ensures !LengthWraps(d) ==> FirstTerm(d, 0) + 4 <= Check(d).bytes
  {
    hide FramingOf, ChunkStep, ScanChunks;
    var i := FirstTerm(d, 0);
    var h := d[..i];
    var f := HeaderFraming(d);
    if f.chunked {
      ScanBounds(d, i + 4);
    } else {
      FramingLengthIsAnInt(h[FirstCrlf(h, 0) + 2..]);
    }
  }

  lemma FramingLengthIsAnInt(h: seq<byte>)
    ensures FramingOf(h).Body? ==> -1 <= FramingOf(h).contentLength <= MAX_INT
  {
    LengthIsAnInt(Lines(h), -1, false);
  }

  lemma {:induction false} LengthIsAnInt(lines: seq<seq<byte>>, cl: int, ch: bool)
    requires -1 <= cl <= MAX_INT
    ensures FoldLines(lines, cl, ch).Body? ==> -1 <= FoldLines(lines, cl, ch).contentLength <= MAX_INT
    decreases |lines|
  {
    if lines != [] {
      var e := EffectOf(lines[0]);
      if e.SetsLength? {
        SignedIsAnInt(TrimSpace(lines[0][|CONTENT_LENGTH|..]));
      }
      LengthIsAnInt(lines[1..], if e.SetsLength? then e.n else cl, ch || e.Chunks?);
    }
  }

  lemma SignedIsAnInt(s: seq<byte>)
    ensures ParseSigned(s).Number? ==> -MAX_INT <= ParseSigned(s).value <= MAX_INT
  {
    ParsesExactly(s, 10);
    if s != [] {
      ParsesExactly(s[1..], 10);
    }
  }

  /** An accepted request ends at the same byte in every longer buffer and in itself, and no shorter
      prefix is accepted.  A shorter prefix can be rejected only in the three-byte window above the
      header limit, while the end of the header block is still arriving. */
  lemma ExactlyFramed(d: seq<byte>, ext: seq<byte>, m: nat)
    requires Check(d).Complete? && !LengthWraps(d) && m < Check(d).bytes
    ensures 0 < Check(d).bytes <= |d|
    ensures Check(d + ext) == Check(d)
    ensures Check(d[..Check(d).bytes]) == Check(d)
    ensures Check(d[..m]) == Incomplete
         || (Check(d[..m]) == Rejected(ErrRange) && MAX_HEADER_SIZE < m <= MAX_HEADER_SIZE + 3 && !HeaderFound(d[..m]))
  {
    SizeIsInTheBuffer(d);
    var n := Check(d).bytes;
    CheckLocal(d, d + ext, |d|);
    CheckLocal(d, d[..n], n);
    var p := d[..m];
    var i := FirstTerm(d, 0);
    if HeaderFound(p) {
      if Check(p).Complete? {
        SizeIsInTheBuffer(p);
        CheckLocal(p, d, m);
      } else if Check(p).Rejected? {
        assert TermAt(p, FirstTerm(p, 0));
        CheckLocal(p, d, m);
      }
    } else if m >= i + 4 {
      FirstTermLocal(d, p, m, 0);
    } else {
      NoTermInPrefix(d, m);
    }
  }

  lemma NoTermInPrefix(d: seq<byte>, m: nat)
    requires m <= |d| && m < FirstTerm(d, 0) + 4
    ensures FirstTerm(d[..m], 0) == -1
  {
    forall j | 0 <= j
      ensures !TermAt(d[..m], j)
    {
      assert TermAt(d[..m], j) ==> TermAt(d, j);
    }
  }

  ghost predicate WholeRequest(r: seq<byte>)
  {
    Check(r) == Complete(|r|)
  }

  /** Cut requests off the front while one is complete. */
  ghost function Split(d: seq<byte>): (seq<seq<byte>>, seq<byte>)
    decreases |d|
  {
    match Check(d)
    case Complete(n) =>
      if 0 < n <= |d| then
        var (rest, tail) := Split(d[n..]);
        ([d[..n]] + rest, tail)
      else ([], d)
    case _ => ([], d)
  }

  lemma FirstRequest(r: seq<byte>, after: seq<byte>)
    requires WholeRequest(r)
    ensures 0 < |r| && Check(r + after) == Complete(|r|)
  {
    SizeIsInTheBuffer(r);
    ExactlyFramed(r, after, 0);
  }

  lemma NothingLeft()
    ensures Split([]) == ([], [])
  {
  }

  /** A pipeline of whole requests splits back into exactly those requests, whatever follows them. */
  lemma {:induction false} PipelineSplits(requests: seq<seq<byte>>, tail: seq<byte>)
    requires forall r :: r in requests ==> WholeRequest(r)
    ensures Split(Concat(requests) + tail).0 == requests + Split(tail).0
    ensures Split(Concat(requests) + tail).1 == Split(tail).1
    decreases |requests|
  {
    hide Check, Concat, Split;
    if requests == [] {
      NoRequests(tail);
    } else {
      var r := requests[0];
      var after := Concat(requests[1..]) + tail;
      FirstOfPipeline(requests, tail);
      FirstRequest(r, after);
      SplitOnce(r, after);
      PipelineSplits(requests[1..], tail);
      assert [r] + (requests[1..] + Split(tail).0) == requests + Split(tail).0;
    }
  }

  lemma NoRequests(tail: seq<byte>)
    ensures Concat([]) + tail == tail && [] + Split(tail).0 == Split(tail).0
  {
    hide Split;
  }

  lemma FirstOfPipeline(requests: seq<seq<byte>>, tail: seq<byte>)
    requires requests != []
    ensures Concat(requests) + tail == requests[0] + (Concat(requests[1..]) + tail)
  {
  }

  lemma SplitOnce(r: seq<byte>, after: seq<byte>)
    requires 0 < |r| && Check(r + after) == Complete(|r|)
    ensures Split(r + after) == ([r] + Split(after).0, Split(after).1)
  {
    hide Check;
    var d := r + after;
    assert d[..|r|] == r && d[|r|..] == after;
  }

  /** Complete requests form a prefix-free, uniquely decodable code. */
  lemma PipelinesAreUnambiguous(a: seq<seq<byte>>, b: seq<seq<byte>>)
    requires forall r :: r in a ==> WholeRequest(r)
    requires forall r :: r in b ==> WholeRequest(r)
    requires Concat(a) == Concat(b)
    ensures a == b
  {
    hide Check;
    NothingLeft();
    PipelineSplits(a, []);
    PipelineSplits(b, []);
    assert a + [] == a && b + [] == b;
    assert Concat(a) + [] == Concat(b) + [];
  }

  // ----- rejections

  /** A rejection is final when the header block is complete or the buffer is three bytes past the limit. */
  lemma LateRejectionsAreFinal(d: seq<byte>, ext: seq<byte>)
    requires Check(d).Rejected?
    requires FirstTerm(d, 0) != -1 || |d| > MAX_HEADER_SIZE + 3
    ensures Check(d + ext) == Check(d)
  {
    if HeaderFound(d) {
      CheckLocal(d, d + ext, |d|);
    } else if FirstTerm(d, 0) != -1 {
      FirstTermLocal(d, d + ext, |d|, 0);
    } else {
      NoEarlierTerm(d, ext);
    }
  }

  /** A header end that appears when bytes arrive overlaps at most the last three old ones. */
  lemma NoEarlierTerm(d: seq<byte>, ext: seq<byte>)
    requires FirstTerm(d, 0) == -1
    ensures FirstTerm(d + ext, 0) == -1 || FirstTerm(d + ext, 0) > |d| - 4
  {
    forall r | 0 <= r <= |d| - 4
      ensures !TermAt(d + ext, r)
    {
      assert !TermAt(d, r);
    }
  }

  /** The buffer ends with the first j bytes of an empty line, which would end a header block within the limit. */
  predicate CutShort(d: seq<byte>, j: nat)
  {
    1 <= j <= 3 && j <= |d| && |d| - j <= MAX_HEADER_SIZE && d[|d| - j..] == EMPTY_LINE[..j]
  }

  /** How much of such an empty line has arrived: the most there is. */
  function Arrived(d: seq<byte>): (j: nat)
    ensures j > 0 ==> CutShort(d, j)
    ensures forall k :: j < k ==> !CutShort(d, k)
  {
    if CutShort(d, 3) then 3 else if CutShort(d, 2) then 2 else if CutShort(d, 1) then 1 else 0
  }

  /** The framing that a header block's lines give, if there are any. */
  ghost predicate RefusedForRange(block: seq<byte>)
  {
    FirstCrlf(block, 0) != -1 && FramingOf(block[FirstCrlf(block, 0) + 2..]) == Malformed(ErrRange)
  }

  /** The buffer was cut inside the empty line that ends its header block, and that block itself is not refused
      for a number out of range. */
  ghost predicate CutInEmptyLine(d: seq<byte>)
  {
    FirstTerm(d, 0) == -1 && Arrived(d) > 0 && !RefusedForRange(d[..|d| - Arrived(d)])
  }

  /** A header end that appears within the limit was cut short before. */
  lemma NewTermWasCut(d: seq<byte>, ext: seq<byte>)
    requires FirstTerm(d, 0) == -1 && |d| > MAX_HEADER_SIZE && 0 <= FirstTerm(d + ext, 0) <= MAX_HEADER_SIZE
    ensures |d| - 3 <= FirstTerm(d + ext, 0) < |d| && FirstTerm(d + ext, 0) == |d| - Arrived(d)
  {
    hide FirstTerm;
    var e := d + ext;
    var r := FirstTerm(e, 0);
    NoEarlierTerm(d, ext);
    var j := |d| - r;
    assert TermAt(e, r);
    assert d[r..] == EMPTY_LINE[..j] by {
      assert forall k :: 0 <= k < j ==> d[r..][k] == e[r + k] == EMPTY_LINE[k];
    }
    assert CutShort(d, j);
    if Arrived(d) > j {
      LongerCut(d, ext, j, Arrived(d));
    }
  }

  /** Two cuts end in the same bytes, so the longer one is completed first. */
  lemma LongerCut(d: seq<byte>, ext: seq<byte>, j: nat, k: nat)
    requires CutShort(d, j) && CutShort(d, k) && j < k && TermAt(d + ext, |d| - j)
    ensures TermAt(d + ext, |d| - k)
  {
    var e := d + ext;
    assert d[|d| - j..][j - 1] == EMPTY_LINE[j - 1] && d[|d| - k..][k - 1] == EMPTY_LINE[k - 1];
    assert j == 1 && k == 3;
    assert forall i :: 0 <= i < 3 ==> e[|d| - 3 + i] == d[|d| - 3..][i] == EMPTY_LINE[i];
    assert e[|d|] == LF;
  }

  lemma Completed(d: seq<byte>, j: nat)
    requires CutShort(d, j)
    ensures TermAt(d + EMPTY_LINE[j..], |d| - j)
  {
    var a := d[..|d| - j];
    assert d == a + EMPTY_LINE[..j];
    assert d + EMPTY_LINE[j..] == a + EMPTY_LINE;
  }

  /** Completing the empty line ends the header block there. */
  lemma CompletedCut(d: seq<byte>)
    requires FirstTerm(d, 0) == -1 && |d| > MAX_HEADER_SIZE && Arrived(d) > 0
    ensures FirstTerm(d + EMPTY_LINE[Arrived(d)..], 0) == |d| - Arrived(d)
  {
    hide FirstTerm, Arrived;
    var j := Arrived(d);
    var ext := EMPTY_LINE[j..];
    var e := d + ext;
    Completed(d, j);
    NewTermWasCut(d, ext);
  }

  /** What the check says of a header block that has just been completed: nothing yet about its body. */
  lemma JustCompleted(e: seq<byte>, i: nat)
    requires i + 4 <= |e|
    ensures RefusedForRange(e[..i]) ==> HeaderVerdict(e, i) == Rejected(ErrRange)
    ensures i + 4 == |e| && !RefusedForRange(e[..i]) ==> HeaderVerdict(e, i) != Rejected(ErrRange)
  {
    hide FramingOf;
    var k := FirstCrlf(e[..i], 0);
    if k != -1 && i + 4 == |e| {
      assert ScanChunks(e, i + 4) == Incomplete;
    }
  }

  /** Exactly when a rejection is final, for every extension: unless the buffer was cut inside the empty line that
      ends a header block within the limit. */
  lemma RejectionIsFinalIff(d: seq<byte>)
    requires Check(d).Rejected?
    ensures (forall ext: seq<byte> :: Check(d + ext) == Check(d)) <==> !CutInEmptyLine(d)
  {
    hide FirstTerm, HeaderVerdict, RefusedForRange, Arrived;
    if CutInEmptyLine(d) {
      var ext := EMPTY_LINE[Arrived(d)..];
      CompletedCut(d);
      assert (d + ext)[..|d| - Arrived(d)] == d[..|d| - Arrived(d)];
      JustCompleted(d + ext, |d| - Arrived(d));
      assert Check(d + ext) != Check(d);
    } else {
      forall ext: seq<byte>
        ensures Check(d + ext) == Check(d)
      {
        NotCutStaysRejected(d, ext);
      }
    }
  }

  lemma NotCutStaysRejected(d: seq<byte>, ext: seq<byte>)
    requires Check(d).Rejected? && !CutInEmptyLine(d)
    ensures Check(d + ext) == Check(d)
  {
    hide FirstTerm, HeaderVerdict, RefusedForRange, Arrived;
    if FirstTerm(d, 0) != -1 {
      LateRejectionsAreFinal(d, ext);
    } else {
      NoTermStaysRejected(d, ext);
    }
  }

  lemma NoTermStaysRejected(d: seq<byte>, ext: seq<byte>)
    requires FirstTerm(d, 0) == -1 && |d| > MAX_HEADER_SIZE && !CutInEmptyLine(d)
    ensures Check(d + ext) == Rejected(ErrRange)
  {
    hide FirstTerm, HeaderVerdict, RefusedForRange, Arrived;
    var e := d + ext;
    var r := FirstTerm(e, 0);
    if 0 <= r <= MAX_HEADER_SIZE {
      NewTermWasCut(d, ext);
      assert TermAt(e, r);
      assert e[..r] == d[..r];
      JustCompleted(e, r);
    }
  }
}
