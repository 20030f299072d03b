/** What the settings and the calls of a handler mean for the response, said without the functions that compute it. */
module ResponseLaws {
  import opened Wrappers
  import opened Bytes
  import opened Numerals
  import opened HeaderLines
  import opened HeaderPrint
  import opened HeaderMap
  import opened ChunkCodec
  import opened ResponseWriters
  import opened ResponseFraming

  // ----- the head

  lemma TextsAreSpelled()
    ensures NAME_CONTENT_LENGTH == Ascii("Content-Length") && NAME_TRANSFER_ENCODING == Ascii("Transfer-Encoding")
    ensures NAME_DATE == Ascii("Date") && NAME_DATE + COLON == Ascii("Date: ") && NAME_CONTENT_TYPE == Ascii("Content-Type")
    ensures PROTO == Ascii("HTTP/1.1 ") && UNKNOWN_STATUS == Ascii("status code ")
    ensures TRANSFER_ENCODING + [32] + CHUNKED == Ascii("Transfer-Encoding: chunked")
    ensures TRANSFER_ENCODING + [32] + CHUNKED + COMMA_TRAILERS == Ascii("Transfer-Encoding: chunked, trailers")
  {
  }

  /** A decimal number as it is printed in a status line: read back, it is that number. */
  lemma ItoaReadsBack(n: int)
    requires -MAX_INT <= n <= MAX_INT
    ensures ParseSigned(Itoa(n)) == Number(n)
  {
    hide ParseDigits;
    if n < 0 {
      NumeralRoundTrip(-n, 10);
      assert Itoa(n)[1..] == NumeralOf(-n, 10);
    } else {
      NumeralRoundTrip(n, 10);
      assert DigitOf(Itoa(n)[0], 10) >= 0;
    }
  }

  /** The head, line by line: the status; a date unless the handler gave one; the handler's fields; and, where the body
      is chunked and the handler gave no encoding of its own, the encoding. */
  lemma HeadMeaning(s: Settings, date: seq<byte>, statusText: int -> seq<byte>)
    ensures var text := statusText(s.statusCode);
            var chunks := s.trailer != [] || Get(s.header, NAME_CONTENT_LENGTH) == [];
            var encoded := chunks && Get(s.header, NAME_TRANSFER_ENCODING) == [];
            HeadOf(s, date, statusText) ==
            [PROTO + Itoa(s.statusCode) + [32] + if text == [] then UNKNOWN_STATUS + Itoa(s.statusCode) else text]
            + (if Get(s.header, NAME_DATE) == [] then [NAME_DATE + COLON + date] else [])
            + LinesOf(s.header)
            + (if !encoded then []
               else if s.trailer == [] then [TRANSFER_ENCODING + [32] + CHUNKED]
               else [TRANSFER_ENCODING + [32] + CHUNKED + COMMA_TRAILERS])
  {
    hide Get, LinesOf, Itoa;
  }

  // ----- the calls

  /** The calls that print the head if it is not out. */
  predicate Prints(c: Call)
  {
    match c
    case CallWrite(data) => data != []
    case CallWriteString(data) => data != []
    case CallReadFrom(_) => true
    case CallFlush => true
    case _ => false
  }

  /** Nothing of these prints or hijacks. */
  predicate Quiet(calls: seq<Call>)
  {
    forall i :: 0 <= i < |calls| ==> !Prints(calls[i]) && !calls[i].CallHijack?
  }

  predicate IsFirstPrint(calls: seq<Call>, k: int)
  {
    0 <= k < |calls| && Prints(calls[k]) && Quiet(calls[..k])
  }

  /** The header after the handler's own changes. */
  function HeaderAfter(start: seq<Field>, calls: seq<Call>): seq<Field>
  {
    if calls == [] then start
    else
      var h := HeaderAfter(start, calls[..|calls| - 1]);
      match calls[|calls| - 1]
      case CallSetHeader(name, value) => Set(h, name, value)
      case CallAddHeader(name, value) => Add(h, name, value)
      case CallDelHeader(name) => Del(h, name)
      case _ => h
  }

  function TrailerAfter(start: seq<Field>, calls: seq<Call>): seq<Field>
  {
    if calls == [] then start
    else
      var t := TrailerAfter(start, calls[..|calls| - 1]);
      match calls[|calls| - 1]
      case CallSetTrailer(name, value) => Set(t, name, value)
      case CallAddTrailer(name, value) => Add(t, name, value)
      case CallDelTrailer(name) => Del(t, name)
      case _ => t
  }

  /** The status of the last WriteHeader. */
  function StatusAfter(start: int, calls: seq<Call>): int
  {
    if calls == [] then start
    else
      match calls[|calls| - 1]
      case CallWriteHeader(code) => code
      case _ => StatusAfter(start, calls[..|calls| - 1])
  }

  function SettingsAfter(start: Settings, calls: seq<Call>): Settings
  {
    Settings(HeaderAfter(start.header, calls), TrailerAfter(start.trailer, calls), StatusAfter(start.statusCode, calls))
  }

  /** What the first writing of data adds. */
  function WithType(header: seq<Field>, data: seq<byte>, detect: seq<byte> -> seq<byte>): seq<Field>
  {
    if Get(header, NAME_CONTENT_TYPE) != [] then header
    else Set(header, NAME_CONTENT_TYPE, detect(if |data| <= 512 then data else data[..512]))
  }

  function PrintedBy(c: Call, s: Settings, detect: seq<byte> -> seq<byte>): Settings
  {
    match c
    case CallWrite(data) => s.(header := WithType(s.header, data, detect))
    case CallWriteString(data) => s.(header := WithType(s.header, data, detect))
    case _ => s
  }

  lemma SniffedIs(header: seq<Field>, data: seq<byte>, detect: seq<byte> -> seq<byte>)
    ensures Sniffed(header, data, detect) == WithType(header, data, detect)
  {
    assert |data| == 512 ==> data[..512] == data;
  }

  lemma QuietFront(calls: seq<Call>)
    requires calls != []
    ensures Quiet(calls) <==>
            Quiet(calls[..|calls| - 1]) && !Prints(calls[|calls| - 1]) && !calls[|calls| - 1].CallHijack?
  {
    var front := calls[..|calls| - 1];
    assert forall i :: 0 <= i < |front| ==> front[i] == calls[i];
  }

  lemma {:induction false} QuietPlan(start: Settings, calls: seq<Call>, detect: seq<byte> -> seq<byte>)
    requires Quiet(calls)
    ensures PlanOf(start, calls, detect) == Plan(SettingsAfter(start, calls), None, false)
    decreases |calls|
  {
    if calls != [] {
      QuietFront(calls);
      QuietPlan(start, calls[..|calls| - 1], detect);
    }
  }

  lemma {:induction false} TrailerMeaning(start: Settings, calls: seq<Call>, detect: seq<byte> -> seq<byte>)
    ensures PlanOf(start, calls, detect).now.trailer == TrailerAfter(start.trailer, calls)
    decreases |calls|
  {
    hide Sniffed;
    if calls != [] {
      TrailerMeaning(start, calls[..|calls| - 1], detect);
    }
  }

  /** The head is printed by the first call that prints, unless the connection is hijacked before, and from the
      handler's settings at that moment - with the detected type if that call writes data.  Later changes to header
      and status make no difference; the trailers are those there are at the end. */
  lemma {:induction false} PlanMeaning(start: Settings, calls: seq<Call>, detect: seq<byte> -> seq<byte>, k: int)
    requires IsFirstPrint(calls, k)
    ensures PlanOf(start, calls, detect).printed == Some(PrintedBy(calls[k], SettingsAfter(start, calls[..k]), detect))
    decreases |calls|
  {
    hide Sniffed, WithType;
    var n := |calls| - 1;
    var before := calls[..n];
    if k == n {
      QuietPlan(start, before, detect);
      match calls[k]
      case CallWrite(data) => SniffedIs(SettingsAfter(start, before).header, data, detect);
      case CallWriteString(data) => SniffedIs(SettingsAfter(start, before).header, data, detect);
      case _ =>
    } else {
      assert before[..k] == calls[..k] && before[k] == calls[k];
      PlanMeaning(start, before, detect, k);
    }
  }

  /** A first print stays first. */
  lemma FirstPrintFront(calls: seq<Call>, n: nat)
    requires n <= |calls|
    ensures forall k :: IsFirstPrint(calls[..n], k) ==> IsFirstPrint(calls, k)
  {
    forall k | IsFirstPrint(calls[..n], k)
      ensures IsFirstPrint(calls, k)
    {
      assert calls[..n][..k] == calls[..k];
    }
  }

  /** Where no call prints first, all is quiet up to a hijack. */
  lemma {:induction false} NeverPrinted(start: Settings, calls: seq<Call>, detect: seq<byte> -> seq<byte>)
    requires forall k :: !IsFirstPrint(calls, k)
    ensures PlanOf(start, calls, detect).printed.None? && (Quiet(calls) || CallHijack in calls)
    decreases |calls|
  {
    hide Sniffed;
    if !Quiet(calls) {
      var n := |calls| - 1;
      var before := calls[..n];
      FirstPrintFront(calls, n);
      NeverPrinted(start, before, detect);
      QuietFront(calls);
      assert calls[n] in calls && (CallHijack in before ==> CallHijack in calls);
      assert Quiet(before) ==> !Prints(calls[n]) by {
        assert !IsFirstPrint(calls, n);
      }
    } else {
      QuietPlan(start, calls, detect);
    }
  }

  lemma NotPrintedIff(start: Settings, calls: seq<Call>, detect: seq<byte> -> seq<byte>)
    ensures PlanOf(start, calls, detect).printed.None? <==> forall k :: !IsFirstPrint(calls, k)
  {
    hide PlanOf, Quiet, IsFirstPrint;
    if forall k :: !IsFirstPrint(calls, k) {
      NeverPrinted(start, calls, detect);
    } else {
      var k :| IsFirstPrint(calls, k);
      PlanMeaning(start, calls, detect, k);
    }
  }

  // ----- one response, byte for byte

  const X_SUM: seq<byte> := [88, 45, 83, 117, 109]
  const TEXT_PLAIN: seq<byte> := [116, 101, 120, 116, 47, 112, 108, 97, 105, 110]
  const HELLO: seq<byte> := [104, 101, 108, 108, 111]
  const OK: seq<byte> := [79, 75]
  const TODAY: seq<byte> := [116, 111, 100, 97, 121]

  lemma ExampleTexts()
    ensures X_SUM == Ascii("X-Sum") && TEXT_PLAIN == Ascii("text/plain") && HELLO == Ascii("hello")
    ensures OK == Ascii("OK") && TODAY == Ascii("today")
  {
  }

  /** A token whose letters are as they should be is canonical. */
  lemma IsCanonical(name: seq<byte>)
    requires IsToken(name)
    requires forall i :: 0 <= i < |name| ==>
               name[i] == if i == 0 || name[i - 1] == DASH then Upper(name[i]) else Lower(name[i])
    ensures Canonical(name) == name
  {
    forall i | 0 <= i < |name|
      ensures Canonical(name)[i] == name[i]
    {
      CapitalAt(name, true, i);
      assert name[i] == if i == 0 || name[i - 1] == DASH then Upper(name[i]) else Lower(name[i]);
    }
  }

  lemma NamesAreCanonical()
    ensures IsToken(X_SUM) && Canonical(X_SUM) == X_SUM
    ensures IsToken(NAME_CONTENT_TYPE) && Canonical(NAME_CONTENT_TYPE) == NAME_CONTENT_TYPE
  {
    IsCanonical(X_SUM);
    IsCanonical(NAME_CONTENT_TYPE);
  }

  lemma OneField(name: seq<byte>, value: seq<byte>)
    requires IsToken(name)
    requires forall i :: 0 <= i < |value| ==> value[i] != CR && value[i] != LF && !IsBlank(value[i])
    ensures LinesOf([Field(name, value)]) == [LineOf(name, value)]
  {
    assert OneLine(value) == value;
    assert [] + value + [] == value;
    BlanksAround([], value, []);
    var fields := [Field(name, value)];
    assert fields[1..] == [];
  }

  lemma Status200()
    ensures NumeralOf(200, 10) == [50, 48, 48]
  {
    assert NumeralOf(2, 10) == [50];
    assert NumeralOf(20, 10) == [50, 48];
  }

  lemma OtherNames()
    ensures |Canonical(NAME_CONTENT_LENGTH)| == 14 && |Canonical(NAME_TRANSFER_ENCODING)| == 17
    ensures |Canonical(NAME_DATE)| == 4
  {
  }

  lemma FromNothing(name: seq<byte>, value: seq<byte>)
    requires Canonical(name) == name
    ensures Set([], name, value) == [Field(name, value)] && Get([], name) == []
  {
  }

  lemma PlanStep(start: Settings, calls: seq<Call>, c: Call, detect: seq<byte> -> seq<byte>)
    ensures PlanOf(start, calls + [c], detect) == PlanAfter(PlanOf(start, calls, detect), c, detect)
    ensures PartsOf(calls + [c]) == PartsOf(calls) + if CallHijack in calls then [] else PartsOfCall(c)
  {
    hide PlanAfter, PartsOfCall;
    assert (calls + [c])[..|calls|] == calls;
  }

  lemma ExamplePlan(calls: seq<Call>, detect: seq<byte> -> seq<byte>)
    requires calls == [CallSetTrailer(X_SUM, [49]), CallWrite(HELLO)] && detect(HELLO) == TEXT_PLAIN
    ensures PlanOf(Settings([], [], 200), calls, detect) == Plan(ExampleSettings(), Some(ExampleSettings()), false)
    ensures PartsOf(calls) == [HELLO]
  {
    hide PlanOf, PartsOf, Set, Get, Canonical;
    var start := Settings([], [], 200);
    var first := CallSetTrailer(X_SUM, [49]);
    NamesAreCanonical();
    FromNothing(X_SUM, [49]);
    FromNothing(NAME_CONTENT_TYPE, TEXT_PLAIN);
    NoCalls(start, detect);
    PlanStep(start, [], first, detect);
    assert [] + [first] == [first];
    PlanStep(start, [first], CallWrite(HELLO), detect);
    assert [first] + [CallWrite(HELLO)] == calls;
  }

  lemma NoCalls(start: Settings, detect: seq<byte> -> seq<byte>)
    ensures PlanOf(start, [], detect) == Plan(start, None, false) && PartsOf([]) == []
  {
  }

  function ExampleSettings(): Settings
  {
    Settings([Field(NAME_CONTENT_TYPE, TEXT_PLAIN)], [Field(X_SUM, [49])], 200)
  }

  lemma NotThere(name: seq<byte>)
    requires |Canonical(name)| != 12
    ensures Get(ExampleSettings().header, name) == []
  {
    hide Canonical;
    var fields := ExampleSettings().header;
    assert fields[1..] == [];
    assert ValuesAt(fields[1..], Canonical(name)) == [];
  }

  lemma ExampleHead(statusText: int -> seq<byte>)
    requires statusText(200) == OK
    ensures HeadOf(ExampleSettings(), TODAY, statusText) ==
            [PROTO + [50, 48, 48] + [32] + OK, LineOf(NAME_DATE, TODAY), LineOf(NAME_CONTENT_TYPE, TEXT_PLAIN),
             TRANSFER_ENCODING + [32] + CHUNKED + COMMA_TRAILERS]
  {
    hide LinesOf, Get, Itoa, Canonical, HeadOf;
    NamesAreCanonical();
    OtherNames();
    Status200();
    ItoaOfNat(200);
    OneField(NAME_CONTENT_TYPE, TEXT_PLAIN);
    NotThere(NAME_DATE);
    NotThere(NAME_TRANSFER_ENCODING);
    NotThere(NAME_CONTENT_LENGTH);
    HeadMeaning(ExampleSettings(), TODAY, statusText);
    assert NAME_DATE + COLON + TODAY == LineOf(NAME_DATE, TODAY);
  }

  lemma ItoaOfNat(n: nat)
    ensures Itoa(n) == NumeralOf(n, 10)
  {
  }

  /** What is sent. */
  function ExampleBytes(): seq<byte>
  {
    Join([PROTO + [50, 48, 48] + [32] + OK, LineOf(NAME_DATE, TODAY), LineOf(NAME_CONTENT_TYPE, TEXT_PLAIN),
          TRANSFER_ENCODING + [32] + CHUNKED + COMMA_TRAILERS])
    + CRLF + ([53] + CRLF + HELLO + CRLF) + ([48] + CRLF + (LineOf(X_SUM, [49]) + CRLF) + CRLF)
  }

  lemma ExampleIs(out: seq<byte>, head: seq<seq<byte>>, trailers: seq<seq<byte>>, statusText: int -> seq<byte>)
    requires statusText(200) == OK && head == HeadOf(ExampleSettings(), TODAY, statusText)
    requires trailers == LinesOf([Field(X_SUM, [49])])
    requires out == [] + Join(head) + CRLF + ChunksOf([HELLO]) + EndOf(trailers)
    ensures out == ExampleBytes()
  {
    hide HeadOf, Join, LineOf, LinesOf, ChunksOf, EndOf;
    ExampleHead(statusText);
    ExampleBody();
    NamesAreCanonical();
    OneField(X_SUM, [49]);
    assert [] + Join(head) == Join(head);
  }

  /** A trailer, five bytes and no length. */
  method ExampleResponse(statusText: int -> seq<byte>, detect: seq<byte> -> seq<byte>) returns (w: ResponseWriter)
    requires (forall code :: CR !in statusText(code)) && statusText(200) == OK && detect(HELLO) == TEXT_PLAIN
    ensures w.out == ExampleBytes()
  {
    hide HeadOf, Join, LineOf, LinesOf, ChunksOf, EndOf, PlanOf, PartsOf, Payload, Concat, Get, CleanLine, ExampleBytes;
    DateIsClean();
    w := new ResponseWriter([], TODAY, statusText, detect, false);
    var calls := [CallSetTrailer(X_SUM, [49]), CallWrite(HELLO)];
    assert w.Current() == Settings([], [], 200);
    ExamplePlan(calls, detect);
    Respond(w, calls);
    ExampleIs(w.out, HeadOf(ExampleSettings(), TODAY, statusText), LinesOf([Field(X_SUM, [49])]), statusText);
  }

  lemma DateIsClean()
    ensures CleanLine(LineOf(NAME_DATE, TODAY))
  {
    WithoutCr(LineOf(NAME_DATE, TODAY));
  }

  lemma ExampleBody()
    ensures ChunksOf([HELLO]) == [53] + CRLF + HELLO + CRLF
    ensures EndOf([LineOf(X_SUM, [49])]) == [48] + CRLF + (LineOf(X_SUM, [49]) + CRLF) + CRLF
  {
    assert [HELLO][1..] == [];
    assert NumeralOf(5, 16) == [53];
    JoinOne(LineOf(X_SUM, [49]));
    hide LineOf, Join;
    assert LAST_CHUNK == [48] + CRLF;
  }
}
