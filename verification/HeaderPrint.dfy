/** Printed header blocks and trailer sections: CRLF-terminated lines and one empty line, and what
    the scanners of the parser see in them. */
module HeaderPrint {
  import opened Bytes
  import opened HeaderLines
  import opened RequestCheck

  function Join(lines: seq<seq<byte>>): seq<byte>
  {
    if lines == [] then [] else lines[0] + CRLF + Join(lines[1..])
  }

  /** A header or trailer line as net/http prints it: not empty and without CRLF. */
  ghost predicate CleanLine(l: seq<byte>)
  {
    l != [] && FirstCrlf(l, 0) == -1
  }

  ghost predicate AllClean(lines: seq<seq<byte>>)
  {
    forall i :: 0 <= i < |lines| ==> CleanLine(lines[i])
  }

  lemma WithoutCr(l: seq<byte>)
    requires CR !in l
    ensures FirstCrlf(l, 0) == -1
  {
    assert forall j :: 0 <= j < |l| ==> l[j] != CR;
    assert forall j :: !CrlfAt(l, j);
  }

  lemma LineEnds(l: seq<byte>, rest: seq<byte>)
    requires FirstCrlf(l, 0) == -1
    ensures FirstCrlf(l + CRLF + rest, 0) == |l|
  {
    var d := l + CRLF + rest;
    assert CrlfAt(d, |l|);
    forall j | 0 <= j < |l|
      ensures !CrlfAt(d, j)
    {
      assert !CrlfAt(l, j);
    }
  }

  lemma {:induction false} JoinEnds(lines: seq<seq<byte>>)
    requires lines != []
    ensures |Join(lines)| >= 2 && CrlfAt(Join(lines), |Join(lines)| - 2)
    decreases |lines|
  {
    if |lines| > 1 {
      JoinEnds(lines[1..]);
    } else {
      assert Join(lines) == lines[0] + CRLF;
    }
  }

  /** The search for an empty line moves over a clean line. */
  lemma TermAfterLine(l: seq<byte>, rest: seq<byte>)
    requires FirstCrlf(l, 0) == -1
    ensures CrlfAt(rest, 0) ==> FirstTerm(l + CRLF + rest, 0) == |l|
    ensures !CrlfAt(rest, 0) && FirstTerm(rest, 0) != -1 ==>
              FirstTerm(l + CRLF + rest, 0) == |l| + 2 + FirstTerm(rest, 0)
  {
    var d := l + CRLF + rest;
    var n := |l| + 2;
    LineEnds(l, rest);
    assert d[n..] == rest;
    assert CrlfAt(d, n) == CrlfAt(rest, 0);
    assert forall j :: 0 <= j < |l| ==> !CrlfAt(d, j);
    assert !CrlfAt(d, |l| + 1);
    if CrlfAt(rest, 0) {
      assert TermAt(d, |l|);
    } else {
      FirstTermInSlice(d, n);
      assert forall j :: 0 <= j < n ==> !TermAt(d, j);
    }
  }

  /** The first empty line of a printed block is the one that was printed to end it. */
  lemma {:induction false} BlockEnds(lines: seq<seq<byte>>, body: seq<byte>)
    requires lines != [] && AllClean(lines)
    ensures |Join(lines)| >= 2 && FirstTerm(Join(lines) + CRLF + body, 0) == |Join(lines)| - 2
    decreases |lines|
  {
    hide FirstTerm, FirstCrlf;
    var l := lines[0];
    var rest := Join(lines[1..]) + CRLF + body;
    assert Join(lines) + CRLF + body == l + CRLF + rest;
    TermAfterLine(l, rest);
    if |lines| == 1 {
      assert rest == CRLF + body;
      assert CrlfAt(rest, 0);
    } else {
      BlockEnds(lines[1..], body);
      var m := lines[1];
      assert Join(lines[1..]) == m + CRLF + Join(lines[2..]);
      assert rest == m + CRLF + (Join(lines[2..]) + CRLF + body);
      LineEnds(m, Join(lines[2..]) + CRLF + body);
      assert !CrlfAt(rest, 0);
    }
  }

  /** The line iterator reads back the lines that were printed. */
  lemma {:induction false} LinesOfJoin(lines: seq<seq<byte>>)
    requires lines != [] && AllClean(lines)
    ensures |Join(lines)| >= 2 && Lines(Join(lines)[..|Join(lines)| - 2]) == lines
    decreases |lines|
  {
    var l := lines[0];
    var all := Join(lines);
    assert Join(lines) == l + CRLF + Join(lines[1..]);
    if |lines| == 1 {
      assert Join(lines[1..]) == [];
      assert all == l + CRLF && all[..|all| - 2] == l;
    } else {
      var tail := Join(lines[1..]);
      JoinEnds(lines[1..]);
      LinesOfJoin(lines[1..]);
      var h := all[..|all| - 2];
      var t := tail[..|tail| - 2];
      assert h == l + CRLF + t;
      LineEnds(l, t);
      assert h[..|l|] == l && h[|l| + 2..] == t;
    }
  }

  /** Where a printed head ends, and the lines the scan sees after the first. */
  lemma HeadLines(lines: seq<seq<byte>>, body: seq<byte>)
    requires |lines| >= 2 && AllClean(lines)
    ensures |Join(lines)| >= 4
    ensures var d, i := Join(lines) + CRLF + body, |Join(lines)| - 2;
            && FirstTerm(d, 0) == i && FirstCrlf(d[..i], 0) == |lines[0]| && |lines[0]| + 2 <= i
            && Lines(d[..i][|lines[0]| + 2..]) == lines[1..]
  {
    var d := Join(lines) + CRLF + body;
    var i := |Join(lines)| - 2;
    BlockEnds(lines, body);
    LinesOfJoin(lines[1..]);
    var l, tail := lines[0], Join(lines[1..]);
    var t := tail[..|tail| - 2];
    assert d[..i] == l + CRLF + t;
    LineEnds(l, t);
    assert d[..i][|l| + 2..] == t;
  }

  /** CheckRequest on a printed head: the framing is that of the printed lines after the first. */
  lemma PrintedHead(lines: seq<seq<byte>>, body: seq<byte>)
    requires |lines| >= 2 && AllClean(lines)
    requires |Join(lines)| - 2 <= MAX_HEADER_SIZE
    ensures FirstTerm(Join(lines) + CRLF + body, 0) == |Join(lines)| - 2
    ensures Check(Join(lines) + CRLF + body)
         == BodyVerdict(Join(lines) + CRLF + body, |Join(lines)| + 2, FoldLines(lines[1..], -1, false))
  {
    hide FoldLines, BodyVerdict, FirstTerm, FirstCrlf, Join, Lines;
    HeadLines(lines, body);
  }
}
