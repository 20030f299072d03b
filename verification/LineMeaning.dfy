/** What the header lines of a request mean to CheckRequest, said about the bytes of the line: names in any case, white
    space around values, signs, and lines that are none of its business. */
module LineMeaning {
  import opened Bytes
  import opened Numerals
  import opened HeaderLines
  import opened RequestCheck
  import opened HeaderPrint

  lemma NamesAreSpelled()
    ensures CONTENT_LENGTH == Ascii("Content-Length:") && TRANSFER_ENCODING == Ascii("Transfer-Encoding:")
    ensures CHUNKED == Ascii("chunked")
  {
  }

  /** A line that starts with the name in any case is that name and the rest. */
  lemma NameAndRest(name: seq<byte>, rest: seq<byte>, field: seq<byte>)
    requires EqualFold(name, field)
    ensures StartsFold(name + rest, field) && (name + rest)[|field|..] == rest
  {
    assert (name + rest)[..|field|] == name;
  }

  /** The two names have no common beginning. */
  lemma NamesDiffer(line: seq<byte>)
    ensures !(StartsFold(line, CONTENT_LENGTH) && StartsFold(line, TRANSFER_ENCODING))
  {
    if |line| >= |TRANSFER_ENCODING| {
      assert line[..|CONTENT_LENGTH|][0] == line[0] == line[..|TRANSFER_ENCODING|][0];
    }
  }

  // ----- Content-Length

  /** A length as it can be written: digits, with a plus sign or, for zero, a minus sign. */
  ghost predicate WritesLength(text: seq<byte>, n: nat)
  {
    || (text != [] && AllDigits(text, 10) && Value(text, 10) == n)
    || (|text| > 1 && text[0] == 43 && AllDigits(text[1..], 10) && Value(text[1..], 10) == n)
    || (|text| > 1 && text[0] == 45 && AllDigits(text[1..], 10) && Value(text[1..], 10) == n == 0)
  }

  lemma DigitsAreTight(text: seq<byte>)
    requires text != [] && (AllDigits(text, 10) || (|text| > 1 && (text[0] == 43 || text[0] == 45) && AllDigits(text[1..], 10)))
    ensures Tight(text)
  {
    if !AllDigits(text, 10) {
      assert text[1..][|text| - 2] == text[|text| - 1];
    }
  }

  /** What a trimmed value means. */
  lemma SignedMeaning(text: seq<byte>)
    ensures forall n: nat :: ParseSigned(text) == Number(n) <==> WritesLength(text, n) && n <= MAX_INT
  {
    ParsesExactly(text, 10);
    if text != [] {
      ParsesExactly(text[1..], 10);
      assert DigitOf(43, 10) == -1 && DigitOf(45, 10) == -1;
      assert AllDigits(text, 10) ==> DigitOf(text[0], 10) >= 0;
    }
  }

  /** A Content-Length line, its name in any case: it sets the length n exactly when the rest is white space, a
      length n that an int holds, and white space; otherwise, unless nothing at all follows the colon, the request is
      refused. */
  lemma LengthLineIff(name: seq<byte>, rest: seq<byte>, n: nat)
    requires EqualFold(name, CONTENT_LENGTH)
    ensures EffectOf(name + rest) == SetsLength(n)
       <==> n <= MAX_INT && exists left, text, right ::
              rest == left + text + right && Blank(left) && Blank(right) && WritesLength(text, n)
    ensures rest != [] ==> EffectOf(name + rest).SetsLength? || EffectOf(name + rest).Bad?
    ensures rest == [] ==> EffectOf(name + rest) == Ignored
  {
    hide ParseSigned, TrimSpace, WritesLength;
    NameAndRest(name, rest, CONTENT_LENGTH);
    NamesDiffer(name + rest);
    SignedMeaning(TrimSpace(rest));
    var l, r := TrimSplits(rest);
    if exists left, text, right ::
         rest == left + text + right && Blank(left) && Blank(right) && WritesLength(text, n) {
      var left, text, right :|
        rest == left + text + right && Blank(left) && Blank(right) && WritesLength(text, n);
      LengthIsTight(text, n);
      TrimAround(left, text, right);
    }
    if rest == [] {
      NothingIsNoLength(rest);
    }
  }

  lemma LengthIsTight(text: seq<byte>, n: nat)
    requires WritesLength(text, n)
    ensures text != [] && Tight(text)
  {
    DigitsAreTight(text);
  }

  lemma NothingIsNoLength(rest: seq<byte>)
    requires rest == []
    ensures forall left, text, right, n: nat ::
              rest == left + text + right ==> !WritesLength(text, n)
  {
  }

  /** A numeral that no int holds is out of range. */
  lemma LengthOutOfRange(name: seq<byte>, left: seq<byte>, digits: seq<byte>, right: seq<byte>)
    requires EqualFold(name, CONTENT_LENGTH) && Blank(left) && Blank(right)
    requires digits != [] && AllDigits(digits, 10) && Value(digits, 10) > MAX_INT
    ensures EffectOf(name + (left + digits + right)) == Bad(ErrRange)
  {
    hide TrimSpace;
    NameAndRest(name, left + digits + right, CONTENT_LENGTH);
    DigitsAreTight(digits);
    TrimAround(left, digits, right);
    assert digits[..|digits|] == digits;
    assert OverflowsAt(digits, 10, |digits|);
    assert DigitOf(digits[0], 10) >= 0;
  }

  // ----- Transfer-Encoding

  lemma ChunkedHasNoSpace(s: seq<byte>, i: int, j: nat)
    requires FoldedAt(s, CHUNKED, i) && j < 7
    ensures !IsSpace(s[i + j])
  {
    assert Lower(s[i + j]) == CHUNKED[j];
  }

  lemma TrimmingKeepsChunked(s: seq<byte>)
    ensures ContainsFold(TrimSpace(s), CHUNKED) <==> ContainsFold(s, CHUNKED)
  {
    hide TrimSpace;
    var left, right := TrimSplits(s);
    var t := TrimSpace(s);
    if i :| FoldedAt(t, CHUNKED, i) {
      assert FoldedAt(s, CHUNKED, |left| + i);
    }
    if i :| FoldedAt(s, CHUNKED, i) {
      ChunkedHasNoSpace(s, i, 0);
      ChunkedHasNoSpace(s, i, 6);
      assert forall k :: 0 <= k < |left| ==> s[k] == left[k];
      assert forall k :: |left| + |t| <= k < |s| ==> s[k] == right[k - |left| - |t|];
      assert FoldedAt(t, CHUNKED, i - |left|);
    }
  }

  /** A Transfer-Encoding line, its name in any case, announces chunks exactly when its value contains "chunked" in any
      case; otherwise it is ignored. */
  lemma EncodingLineIff(name: seq<byte>, rest: seq<byte>)
    requires EqualFold(name, TRANSFER_ENCODING)
    ensures EffectOf(name + rest) == if ContainsFold(rest, CHUNKED) then Chunks else Ignored
  {
    hide TrimSpace, ContainsFold;
    NameAndRest(name, rest, TRANSFER_ENCODING);
    NamesDiffer(name + rest);
    TrimmingKeepsChunked(rest);
    if rest == [] {
      NothingHasNoChunked();
    }
  }

  lemma NothingHasNoChunked()
    ensures !ContainsFold([], CHUNKED)
  {
  }

  /** Any other line is ignored. */
  lemma OtherLine(line: seq<byte>)
    requires !StartsFold(line, CONTENT_LENGTH) && !StartsFold(line, TRANSFER_ENCODING)
    ensures EffectOf(line) == Ignored
  {
  }

  // ----- requests with a declared length

  ghost predicate Plain(lines: seq<seq<byte>>)
  {
    forall i :: 0 <= i < |lines| ==> !StartsFold(lines[i], CONTENT_LENGTH) && !StartsFold(lines[i], TRANSFER_ENCODING)
  }

  lemma {:induction false} PlainFold(lines: seq<seq<byte>>, n: int)
    requires Plain(lines)
    ensures FoldLines(lines, n, false) == Body(n, false)
    decreases |lines|
  {
    hide EffectOf;
    if lines != [] {
      OtherLine(lines[0]);
      assert Plain(lines[1..]) by {
        assert forall i :: 0 <= i < |lines| - 1 ==> lines[1..][i] == lines[i + 1];
      }
      PlainFold(lines[1..], n);
    }
  }

  lemma {:induction false} FoldPast(before: seq<seq<byte>>, lines: seq<seq<byte>>)
    requires Plain(before)
    ensures FoldLines(before + lines, -1, false) == FoldLines(lines, -1, false)
    decreases |before|
  {
    hide EffectOf;
    if before == [] {
      assert before + lines == lines;
    } else {
      OtherLine(before[0]);
      assert Plain(before[1..]) by {
        assert forall i :: 0 <= i < |before| - 1 ==> before[1..][i] == before[i + 1];
      }
      assert (before + lines)[1..] == before[1..] + lines;
      FoldPast(before[1..], lines);
    }
  }

  /** A request with one framing line, a Content-Length of n in any spelling and white space, is accepted exactly when
      n bytes of body have arrived, and ends with them; until then it is incomplete. */
  lemma LengthRequestIff(requestLine: seq<byte>, before: seq<seq<byte>>, name: seq<byte>, left: seq<byte>,
                         text: seq<byte>, right: seq<byte>, n: nat, after: seq<seq<byte>>, body: seq<byte>)
    requires EqualFold(name, CONTENT_LENGTH) && Blank(left) && Blank(right) && WritesLength(text, n) && n <= MAX_INT
    requires Plain(before) && Plain(after)
    requires var line := name + (left + text + right);
             var head := [requestLine] + before + [line] + after;
             AllClean(head) && |Join(head)| - 2 <= MAX_HEADER_SIZE && |Join(head)| + 2 + n <= MAX_INT
    ensures var head := [requestLine] + before + [name + (left + text + right)] + after;
            Check(Join(head) + CRLF + body) ==
            if |body| >= n then Complete(|Join(head)| + 2 + n) else Incomplete
  {
    hide EffectOf, Join, AllClean, WritesLength, Check;
    var line := name + (left + text + right);
    var head := [requestLine] + before + [line] + after;
    LengthLineIff(name, left + text + right, n);
    assert EffectOf(line) == SetsLength(n);
    assert head[1..] == before + ([line] + after);
    FoldPast(before, [line] + after);
    assert ([line] + after)[1..] == after;
    PlainFold(after, n);
    PrintedHead(head, body);
  }

  // ----- digits

  /** The digits that are printed, spelled out. */
  lemma PrintedDigits(d: int)
    requires 0 <= d < 16
    ensures DigitChar(d) == "0123456789abcdef"[d] as int
  {
  }

  /** The digits that are read, spelled out. */
  lemma DigitsAreSpelled(c: byte)
    ensures DigitOf(c, 10) == if '0' as int <= c <= '9' as int then c - '0' as int else -1
    ensures DigitOf(c, 16) ==
            if '0' as int <= c <= '9' as int then c - '0' as int
            else if 'a' as int <= c <= 'f' as int then 10 + c - 'a' as int
            else if 'A' as int <= c <= 'F' as int then 10 + c - 'A' as int
            else -1
  {
  }
}
