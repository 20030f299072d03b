# Verification of the engine, the WebSocket layer and the response writer

Dafny models of the parts of the server where a byte, a buffer or a reference can be lost, and proofs about them for
all inputs, all runs and all interleavings. `dafny verify dfyconfig.toml` checks everything.

**HTTP requests.** `CheckRequest` (header block, `Content-Length`, chunks, trailers) is written with the loops of the
source and proved equal to the function `Check`. On `Check` rest the framing theorems: accepted requests form a
prefix-free code and pipelines split uniquely, rejections are final, every buffer can still be decided; each comes
with the exact condition under which the code misses it. `Admission` proves that the bypass scan and the 256-byte peek
decide what one check of everything available would. `LineMeaning` and `ChunkCodec` say what header lines and chunks
mean in terms of their bytes.

**Responses.** `ResponseWriter` keeps the fields of the source. Any sequence of header changes, writes, copies and
flushes followed by `EndResponse` puts bytes on the wire that the calls alone determine, and the chunk scanner of the
parser reads back exactly the pieces written. `ResponseLaws` says what the calls mean without the functions that
compute it.

**WebSocket.** `FrameMachine` says what a stream of frames means. Both transport loops of `ServeConn`, `processFrame`,
the assembler, `DecompressData`, `CompressData` and `writeMessageInternal` are methods on real arrays taken from and
put back into a bucketed pool; they are proved to do what the machine says and to keep the pool's books. Theorems about
the machine: resumption under every split, agreement of the two transports, fragments, the size limit, and the round
trip from sender to receiver. `FrameLaws` and `RfcExamples` pin the machine to the frames of RFC 6455.

**Connections.** `ConnLifecycle` is the step system of one `ConnectionState` over its lifetimes: the gate with its
clear-then-recheck tail, the reference count, cancellation, and the reader and writer from shared pools. `ConnLimiter`
is the step system of the connection counter. Both quantify over every interleaving of any number of goroutines.

## What the code does not keep

Each is stated with the condition that separates the inputs where the code is right, and with a concrete input; what
is not checked at all comes last.

- A request whose header block is a request line alone is never decided (`Decidability.WaitsForEverIff`,
  `Decidability.BareExample`); the comment at pkg/engine/parser/parser.go:63 expects this not to happen.
- The sum at pkg/engine/parser/parser.go:177 wraps for a `Content-Length` close to the largest int, and the request is
  accepted with a negative size (`ExactFraming.SizeIsInTheBuffer`, `Decidability.WrapExample`).
- A buffer that was cut inside the empty line that ends its header block can be rejected although the next bytes would
  make it a good one (`ExactFraming.RejectionIsFinalIff`, `Decidability.WindowExample`).
- On the netpoll path an oversized control frame is neither answered nor consumed: the loop waits for ever
  (`BadFrames.WaitsForEverIff`, `BadFrames.OversizedPingExample`), because pkg/websocket/websocket.go:269 drops the
  error; the buffered path closes the connection (`BadFrames.OversizedControlCloses`).
- `Next` comes up short after the availability test exactly when `headerBytes+int(h.Length)` wraps and no limit stops
  the frame (`BadFrames.NextIsShortIff`, `BadFrames.ShortNextExample`).
- A 64-bit length with the top bit set panics the buffered path, which then makes no `OnClose` and loses the pool
  buffer it has just taken (`BadFrames.PanicsIff`, `BadFrames.TopBitExample`, `ServeConns.Session.BufferedOnce`); the
  netpoll path takes the frame as an empty one (`BadFrames.NegativeIsEmpty`).
- `parseHeader` also takes lengths that are not written in the fewest bytes (`WsHeader.ParsedIsEncodedIff`,
  `BadFrames.NotMinimalExample`).
- An early exit of `serveHTTP` leaves bytes nobody will look at exactly when some are not consumed, no callback is owed
  and no other goroutine will look (`ConnLifecycle.EarlyExitStrandsIff`, `ConnLifecycle.EarlyExitCanLose`); a run
  strands nothing if and only if all its early exits are of the other kind (`ConnLifecycle.NoCallbackIsLostIff`). For
  an incomplete request that is what the code intends: it waits for the next arrival.
- A rejection that is still in flight counts against the limit and can turn away a connection while none is live
  (`ConnLimiter.TurnedAwayIff`, `ConnLimiter.InFlightRejectionsCount`).
- A compressed buffer is not put back exactly when the masking key or the header cannot be written, or when it is empty
  (`MessageWriter.WriteMessage`, `MessageWriter.LostBufferExample`).
- A response is framed exactly if and only if its body is what the printed head announces; a handler's own
  Transfer-Encoding or Content-Length can announce another (`ResponseFraming.ResponseIsFramedIff`,
  `ResponseFraming.OwnEncodingExample`).
- Reserved bits and opcodes, FIN on control frames and the masking of client frames are not checked
  (`BadFrames.HeaderBitsIgnored`, `BadFrames.ReservedOpcodes`).

## Assumptions

Go's `int` has 64 bits; slices and streams have at most the largest int of bytes where a lemma says so. `EqualFold` and
`TrimSpace` are ASCII. A `bufio.Reader` is a cursor over the bytes still to come; writes to a `bufio.Writer`
succeed, and it passes bytes on whenever it likes. Header maps hold their fields in the order they came; names are
canonicalised, and fields printed, as net/http does. The status texts of net/http hold no CR and the date makes one
line. A `sync.Pool` gives any object that was put into it, or a new one. An inflater delivers a fixed stream in non-empty pieces of any size and
then ends or fails; DEFLATE is a pair of functions, inverse to each other where a lemma says so. `ws.WriteHeader`,
`ws.Cipher` and the control opcodes follow sections 5.2, 5.3 and 5.5 of RFC 6455. Callbacks start only while the
connection's own reference is held. Some source functions are split into several methods here; their comments give the
lines.

## Model

| member | source | states |
|---|---|---|
| Numerals.ParsesExactly | pkg/engine/parser/parser.go:189-249 | a numeral is accepted if and only if it is non-empty, all digits and at most the largest int64, and then with its positional value |
| Numerals.ParseInt | pkg/engine/parser/parser.go:189-222 | the signed decimal meaning of any byte string, with the first error from the left |
| Numerals.ParseHexInt | pkg/engine/parser/parser.go:225-249 | the same for hexadecimal, against the positional meaning rather than the accumulator |
| Numerals.NumeralRoundTrip | pkg/adaptor/adaptor.go:152-162 | a printed number is all digits and reads back as itself up to the largest int64 |
| LineMeaning.DigitsAreSpelled | pkg/engine/parser/parser.go:230-242 | which byte is which digit, in either case |
| LineMeaning.PrintedDigits | pkg/adaptor/adaptor.go:152-162 | the sixteen digits that are printed |
| Bytes.TrimAround | pkg/engine/parser/parser.go:83 | trimming takes off exactly the white space around a text |
| Bytes.WrapIsModular | pkg/engine/parser/parser.go:177 | the sum is an int and differs from the mathematical one by a multiple of 2^64 |
| Bytes.ContainsCaseInsensitive | pkg/engine/parser/parser.go:253-278 | found if and only if some position matches in any case |
| HeaderLines.ScanHeaderLines | pkg/engine/parser/parser.go:51-115 | the header loop computes the fold over the lines |
| HeaderLines.FramingMeaning | pkg/engine/parser/parser.go:67-115 | the header block without the loop: refused if and only if some line is bad, the last length wins, one chunked line is enough |
| HeaderLines.RefusalMeaning | pkg/engine/parser/parser.go:79-93 | the header block is refused with an error if and only if that is the error of its first bad line |
| LineMeaning.NamesAreSpelled | pkg/engine/parser/parser.go:80-110 | the names and the coding the scan looks for |
| LineMeaning.LengthLineIff | pkg/engine/parser/parser.go:80-93 | a Content-Length line, its name in any case, sets n if and only if its value is n written in digits with an optional sign, n fits an int, and around it is only white space; any other value is refused |
| LineMeaning.LengthOutOfRange | pkg/engine/parser/parser.go:212-214 | a numeral no int holds is a range error |
| LineMeaning.EncodingLineIff | pkg/engine/parser/parser.go:95-114 | a Transfer-Encoding line, its name in any case, means chunks if and only if its value contains "chunked" in any case |
| LineMeaning.OtherLine | pkg/engine/parser/parser.go:67-115 | no other line matters |
| LineMeaning.LengthRequestIff | pkg/engine/parser/parser.go:176-182 | a request with one framing line, a length n in any spelling, is accepted if and only if n bytes of body have arrived, and ends with them |
| RequestCheck.ScanTrailer | pkg/engine/parser/parser.go:148-163 | the end after the zero chunk, in absolute positions |
| RequestCheck.NextChunk | pkg/engine/parser/parser.go:123-172 | one pass of the chunk loop, relative offsets against absolute ones |
| RequestCheck.ScanBody | pkg/engine/parser/parser.go:118-174 | the chunk loop terminates and computes the recursive scan |
| RequestCheck.CheckBody | pkg/engine/parser/parser.go:117-185 | the body verdict for every framing, wrap-around included |
| RequestCheck.CheckRequest | pkg/engine/parser/parser.go:26-186 | every branch of the source yields the verdict the framing theorems are about |
| ExactFraming.SizeIsInTheBuffer | pkg/engine/parser/parser.go:176-182 | an accepted size lies in the buffer if and only if the sum of header and length does not wrap; wrapped, it is negative |
| ExactFraming.CheckLocal | pkg/engine/parser/parser.go:26-186 | a verdict depends only on the bytes before the point it names |
| ExactFraming.ExactlyFramed | pkg/engine/parser/parser.go:26-186 | the same end in every extension and in the request alone; no shorter prefix is accepted, and one is rejected only in the window above the header limit |
| ExactFraming.PipelineSplits | pkg/engine/parser/parser.go:150-185 | whole requests followed by anything split back into exactly those requests |
| ExactFraming.PipelinesAreUnambiguous | pkg/engine/parser/parser.go:26-186 | two pipelines with the same bytes are the same requests |
| ExactFraming.LateRejectionsAreFinal | pkg/engine/parser/parser.go:28-46 | rejections after the header block, or well past the limit, hold for every extension |
| ExactFraming.RejectionIsFinalIff | pkg/engine/parser/parser.go:28-46 | a rejection holds for every extension unless the buffer ends inside the empty line of a header block within the limit, which is itself a bare request line or not refused for a range error |
| Decidability.WaitsForEverIff | pkg/engine/parser/parser.go:59-65 | no extension is ever decided if and only if the header block is a bare request line |
| Decidability.CanBeDecided | pkg/engine/parser/parser.go:26-186 | every other buffer has an extension that is accepted or rejected |
| Decidability.BareExample | pkg/engine/parser/parser.go:60-65 | a concrete buffer that waits for ever |
| Decidability.WrapExample | pkg/engine/parser/parser.go:177-179 | a concrete request accepted with a negative size |
| Decidability.WindowExample | pkg/engine/parser/parser.go:31-35 | a concrete buffer that is rejected, and accepted with one more byte |
| Admission.ShouldBypassFullRequestCheck | pkg/engine/engine.go:252-283 | bypass if and only if the header block is usable and no line starts with a framing field |
| Admission.BypassIsComplete | pkg/engine/engine.go:317 | a bypassed buffer is a whole request that ends with its header block |
| Admission.PeekSettles | pkg/engine/engine.go:311-321 | a verdict on a prefix below the header limit is the verdict on everything available |
| Admission.BypassIff | pkg/engine/engine.go:264-280 | a printed head is bypassed if and only if no line after the first starts with the name of a framing field |
| Admission.Admit | pkg/engine/engine.go:302-331 | the request is dispatched, the connection closed, or more awaited, if and only if one check of everything available is complete, refuses, or is incomplete |
| HeaderPrint.BlockEnds | pkg/adaptor/adaptor.go:358-377 | the first empty line of a printed block is the one printed to end it |
| HeaderPrint.LinesOfJoin | pkg/engine/parser/parser.go:67-77 | the line iterator reads back the printed lines |
| HeaderPrint.PrintedHead | pkg/engine/parser/parser.go:48-115 | a printed head is checked as the fold of its lines after the first |
| ChunkCodec.SizeIsReadIff | pkg/engine/parser/parser.go:129-143 | a size line reads as n if and only if it is white space, hexadecimal digits worth n, white space and perhaps an extension after a semicolon |
| ChunkCodec.SizeMeaning | pkg/engine/parser/parser.go:129-143 | in each such line the digits alone count, and a size no int64 holds is a range error |
| ChunkCodec.OneChunk | pkg/engine/parser/parser.go:123-172 | one chunk, its size line in any spelling and with any extension, is skipped with the two bytes after it, whatever its data |
| ChunkCodec.TooLargeChunk | pkg/engine/parser/parser.go:165-168 | a chunk that no int can count with its line end is a range error |
| ChunkCodec.AnyBodyScans | pkg/engine/parser/parser.go:118-174 | any chunked body is accepted exactly at its last byte and the data skipped is that of its chunks in order |
| ChunkCodec.TrailersEnd | pkg/adaptor/adaptor.go:508-527 | after the zero chunk the scanner stops at the last byte of the printed trailers |
| ChunkCodec.PrintedBodyScans | pkg/adaptor/adaptor.go:198-210 | what the writer prints is such a body, and its data is the pieces written |
| ResponseWriters.ResponseWriter.constructor | pkg/adaptor/adaptor.go:83-97 | a fresh writer has printed nothing |
| ResponseWriters.ResponseWriter.WriteHeader | pkg/adaptor/adaptor.go:299-304 | the status changes only before the head is out and before hijacking |
| ResponseWriters.ResponseWriter.PrintHead | pkg/adaptor/adaptor.go:322-373 | the bytes written are the joined lines of the head, in the order and body form the settings fix |
| ResponseWriters.ResponseWriter.EnsureHeaderSent | pkg/adaptor/adaptor.go:317-380 | the head is printed once, from the settings of that moment |
| ResponseWriters.ResponseWriter.Write | pkg/adaptor/adaptor.go:173-213 | a non-empty write appends one piece, as a chunk when the head says so, and the first one settles the Content-Type and prints the head; an empty one prints nothing; a hijacked one fails |
| ResponseWriters.ResponseWriter.FirstWrite | pkg/adaptor/adaptor.go:184-196 | a Content-Type is detected from at most 512 bytes when the handler has set none, before the head is printed |
| HeaderMap.SameNameIff | pkg/adaptor/adaptor.go:142-150 | two names that are tokens name one field if and only if they differ in case only |
| HeaderMap.CanonicalLetters | pkg/adaptor/adaptor.go:142-150 | in a canonical name the first letter and every letter after a dash are upper case, all others lower |
| HeaderMap.TokenBytes | pkg/adaptor/adaptor.go:358-360 | which bytes a printed name may have |
| HeaderMap.HeaderLaws | pkg/adaptor/adaptor.go:142-150 | setting leaves one value of a name in any case, adding one more, deleting none, and other names keep theirs |
| HeaderMap.PrintedIsClean | pkg/adaptor/adaptor.go:358-360 | whatever a handler puts into the map, every printed field is one non-empty line |
| HeaderMap.PrintedReadsBack | pkg/adaptor/adaptor.go:358-360 | reading the printed lines gives, for every name in any case, its values in order, each on one line and without blanks around it |
| HeaderMap.BlanksAround | pkg/adaptor/adaptor.go:358-360 | exactly the spaces and tabs around a value are left out |
| HeaderMap.OneLineBytes | pkg/adaptor/adaptor.go:358-360 | exactly the line ends in a value become spaces |
| ResponseLaws.TextsAreSpelled | pkg/adaptor/adaptor.go:306-313 | the texts of the head |
| ResponseLaws.HeadMeaning | pkg/adaptor/adaptor.go:322-373 | the head line by line: status, a date if none was given, the handler's fields, and the encoding if trailers were announced or no length was and none was given |
| ResponseLaws.ItoaReadsBack | pkg/adaptor/adaptor.go:324-328 | the printed status is the status |
| ResponseLaws.PlanMeaning | pkg/adaptor/adaptor.go:173-392 | the first call that prints fixes the head, from the handler's changes up to then and the detected type |
| ResponseLaws.NotPrintedIff | pkg/adaptor/adaptor.go:173-392 | no head is printed before the end if and only if no call prints before a hijack |
| ResponseLaws.TrailerMeaning | pkg/adaptor/adaptor.go:507-522 | the trailers are those after all of the handler's changes |
| ResponseLaws.ExampleResponse | pkg/adaptor/adaptor.go:173-532 | one response, a trailer, five bytes and no length, byte for byte |
| ResponseWriters.NoBodyIsPlain | pkg/adaptor/adaptor.go:498-501 | a response with neither body nor trailers is printed without chunks |
| ResponseWriters.ResponseWriter.ReadFrom | pkg/adaptor/adaptor.go:219-295 | every non-empty read becomes one piece, and the count and error are those of the source, on the delegated path too |
| ResponseWriters.ResponseWriter.CopyPlain | pkg/adaptor/adaptor.go:234-244 | without chunks the bufio.Writer is flushed first, so what the connection copies for itself stays in order |
| ResponseWriters.ResponseWriter.Flush | pkg/adaptor/adaptor.go:386-392 | flushing prints the head if it is not out, and everything printed has reached the connection |
| ResponseWriters.ResponseWriter.Hijack | pkg/adaptor/adaptor.go:396-435 | the first hijack succeeds, passes everything on and gives up the bufio.Writer; later ones fail |
| ResponseWriters.ResponseWriter.EndResponse | pkg/adaptor/adaptor.go:491-532 | with no body a zero length is declared; the whole output is head, pieces and end, and all of it has reached the connection |
| ResponseFraming.Respond | pkg/adaptor/adaptor.go:142-532 | for any sequence of calls: where trailers were announced or no length was, the output ends with the last chunk and the trailers, the scanner ends at its last byte and skips exactly what was written; otherwise the bytes after the head are what was written; after a hijack nothing follows |
| ResponseFraming.FinishedBodyScans | pkg/adaptor/adaptor.go:507-527 | the same for a response behind earlier output |
| ResponseFraming.EncodingLineIsChunked | pkg/adaptor/adaptor.go:311-312 | both Transfer-Encoding lines the writer adds are read as chunked |
| ResponseFraming.WriterHeadIsChunked | pkg/adaptor/adaptor.go:345-373 | a head printed for chunks makes the scanner expect chunks, unless the handler set its own encoding or a bad length |
| ResponseFraming.ChunkedResponseIsFramed | pkg/engine/parser/parser.go:118-174 | a whole chunked response is accepted exactly at its last byte |
| ResponseFraming.WriterResponseIsFramedIff | pkg/adaptor/adaptor.go:317-380 | a response the writer chunks by itself is accepted exactly at its last byte if and only if no header line is one the scanner refuses |
| ResponseFraming.ScanShifts | pkg/engine/parser/parser.go:118-174 | scanning the rest of a buffer is scanning that rest alone, shifted |
| ResponseFraming.ResponseIsFramedIff | pkg/adaptor/adaptor.go:317-532 | over all settings: a response is framed exactly if and only if its body is what the head's lines announce, chunked or by length; a chunk-printed body under a chunked head always is |
| ResponseFraming.OwnEncodingExample | pkg/adaptor/adaptor.go:345-373 | settings under which no response is framed: chunks are printed and another encoding is announced |
| ResponseFraming.PlainResponseIsFramedIff | pkg/engine/parser/parser.go:176-185 | a plain response is framed exactly if and only if the declared length is the length of the body |
| WsHeader.ParseHeader | pkg/websocket/websocket.go:76-121 | the assignments of the source yield the header at the front of the bytes, or its absence, or the refusal |
| WsHeader.HeaderIsLocal | pkg/websocket/websocket.go:76-121 | a parsed or refused header is the same whatever follows, read from its own bytes alone |
| WsHeader.PeekIsEnough | pkg/websocket/websocket.go:265-269 | fourteen bytes of a longer stream give the header of the stream |
| WsHeader.HeaderRoundTrip | pkg/websocket/websocket.go:76-121 | every header of section 5.2 with a length below 2^63 is read back from its encoding |
| WsHeader.ParsedIsEncodedIff | pkg/websocket/websocket.go:76-121 | a parsed header is the encoding of what was parsed if and only if its length is in the shortest form |
| WsHeader.ReadHeaderZeroAlloc | pkg/websocket/websocket.go:123-158 | the header at the front is returned and exactly its bytes are discarded; the unexpected-EOF branch is never taken |
| RfcExamples.HeaderFields | pkg/websocket/websocket.go:81-118 | every field from the bits and bytes of the wire |
| RfcExamples.LongLength | pkg/websocket/websocket.go:110-111 | the 64-bit length from the highest byte down |
| Masking.CipherTwice | pkg/websocket/writer.go:65 | masking twice with one key is the identity |
| Masking.CipherFlipsMaskBits | pkg/websocket/websocket.go:357-359 | a payload bit changes if and only if it is set in the mask byte at that position modulo four |
| RfcExamples.UnmaskedText | pkg/websocket/websocket.go:243-389 | the unmasked "Hello" of section 5.7 of RFC 6455 is delivered |
| RfcExamples.MaskedText | pkg/websocket/websocket.go:243-389 | so is the masked one |
| RfcExamples.FragmentedText | pkg/websocket/websocket.go:243-389 | and the one in two fragments |
| RfcExamples.PingAndPong | pkg/websocket/websocket.go:360-372 | the ping of section 5.7 is answered with its body, and the pong is reported |
| RfcExamples.BinaryOf256 | pkg/websocket/websocket.go:243-389 | the 256 bytes of section 5.7 are delivered |
| RfcExamples.BinaryOf64K | pkg/websocket/websocket.go:243-389 | and the 64 KiB |
| Masking.CipherInPlace | pkg/websocket/websocket.go:357-359 | the cipher changes exactly the given bytes of the array |
| FrameStream.PassExtends | pkg/websocket/websocket.go:264-274 | a pass that takes bytes does the same when more have arrived |
| FrameStream.DrainExtends | pkg/websocket/websocket.go:246-312 | later bytes only continue the work: nothing consumed is revised, nothing waiting was consumed |
| FrameStream.AnySplitIsOneShot | pkg/websocket/websocket.go:246-312 | callbacks, remainder and state are those of one delivery, for every split into pieces |
| FrameStream.DrainRests | pkg/websocket/websocket.go:260-272 | what an open connection leaves behind cannot be worked on yet |
| FrameStream.TransportsAgree | pkg/websocket/websocket.go:252-354 | on whole frames both paths make the same callbacks and end in the same state |
| FrameStream.HandleWithin | pkg/websocket/assembler.go:31-133 | one frame within the limit keeps the assembly and the deliveries within it |
| FrameStream.NothingExceedsTheLimit | pkg/websocket/websocket.go:293-297 | over every stream on the netpoll path no message delivered or in progress exceeds a positive limit |
| FrameStream.NothingBufferedExceedsTheLimit | pkg/websocket/websocket.go:293-297 | the same on the path with a bufio.Reader, whole frames or not |
| BadFrames.WaitsForEverIff | pkg/websocket/websocket.go:264-272 | the netpoll path waits whatever arrives if and only if the header is an oversized control frame's |
| BadFrames.OversizedControlCloses | pkg/websocket/websocket.go:123-158 | the buffered path closes the connection on it, with that error if and only if the whole header is there |
| BadFrames.OversizedPingExample | pkg/websocket/websocket.go:86-88 | two bytes on which the netpoll path waits for ever |
| BadFrames.NextIsShortIff | pkg/websocket/websocket.go:270-312 | the payload is short after the availability test if and only if the size sum wraps and no limit stops the frame |
| BadFrames.ShortNextExample | pkg/websocket/websocket.go:270-312 | ten bytes that close a connection without a limit |
| BadFrames.NotMinimalExample | pkg/websocket/websocket.go:107-112 | a header that is parsed although its length is not in the shortest form |
| BadFrames.PanicsIff | pkg/websocket/websocket.go:302-305 | the buffered path panics if and only if whole frames that leave the connection open are followed by a header with the top length bit set |
| BadFrames.TopBitExample | pkg/websocket/websocket.go:302-305 | ten bytes on which it panics |
| BadFrames.NegativeIsEmpty | pkg/websocket/websocket.go:270-312 | the netpoll path takes a frame of negative length as an empty one |
| BadFrames.HeaderBitsIgnored | pkg/websocket/websocket.go:356-389 | beyond the opcode a control frame's header makes no difference, and of another frame's only FIN and whether its reserved bits are RSV1 |
| BadFrames.ReservedOpcodes | pkg/websocket/websocket.go:360-388 | reserved control opcodes are dropped, reserved data opcodes delivered |
| Fragments.PingsAreInvisible | pkg/websocket/websocket.go:360-373 | deleting all ping and pong frames changes no message, no close and no state |
| Fragments.ContinuationsComplete | pkg/websocket/assembler.go:74-130 | continuation frames deliver the concatenation, or close the connection when it is over the limit |
| Fragments.FragmentedMessage | pkg/websocket/assembler.go:31-133 | a fragmented message with control frames anywhere in it is delivered whole under its first frame's opcode and compression |
| Fragments.FrameIsTaken | pkg/websocket/websocket.go:264-327 | the bytes of a frame are taken in one pass and unmasked to what was sent |
| Fragments.DrainPlaysFrames | pkg/websocket/websocket.go:246-354 | reading the bytes of a list of frames is processing the frames |
| FrameLaws.ProtocolErrors | pkg/websocket/assembler.go:33-79 | after any frames that leave the connection open, inside a message every data frame but a continuation ends it with the expected-continuation error, outside one every continuation with the other, and the assembler is idle |
| FrameLaws.ErrorsLeaveIdle | pkg/websocket/assembler.go:74-125 | whatever error a data frame causes, the assembler is idle after it |
| FrameLaws.CloseEnds | pkg/websocket/websocket.go:361-364 | a close frame ends the connection without an error |
| FrameLaws.PingsAndPongs | pkg/websocket/websocket.go:365-370 | the callbacks get the payloads of the ping and pong frames in order, and each ping is answered with its own |
| FrameLaws.EveryPingIsAnswered | pkg/websocket/websocket.go:365-367 | over every stream of bytes the pongs sent are the pings received, in order |
| FrameLaws.EveryBufferedPingIsAnswered | pkg/websocket/websocket.go:365-367 | the same on the path with a bufio.Reader |
| FrameLaws.SingleMessage | pkg/websocket/assembler.go:38-53 | a message in one frame is delivered as it is, or inflated if and only if the inflated stream ends cleanly within the limit; otherwise the error that applies |
| FrameLaws.WaitsForTheFrame | pkg/websocket/websocket.go:265-297 | the netpoll path waits if and only if the frame is not all there, also when it is over the limit |
| FrameLaws.BufferedEnds | pkg/websocket/websocket.go:280-318 | how the buffered path closes on a frame over the limit and where the stream ends |
| FrameLaws.WireMeaning | pkg/websocket/writer.go:18-87 | what a sent message looks like when its frame is read back: compressed if and only if compression is on, it is no control message and has at least 1024 bytes |
| MessageCodec.OneMessage | pkg/websocket/writer.go:18-87 | a message is delivered unchanged when it and its frame fit the limit, and otherwise closes the connection with the error that applies |
| MessageCodec.OneShot | pkg/websocket/writer.go:18-87 | a list of sends gives the list of deliveries and leaves no byte |
| MessageCodec.RoundTrip | pkg/websocket/writer.go:18-87 | the same end to end for every fragmentation on arrival, masked or not, compressed or not |
| BufferPool.GrowthIsTight | pkg/websocket/assembler.go:90-98 | a growth step at least doubles the capacity and stays below 8 times what is required |
| BufferPool.LeastBucket | pkg/websocket/pool.go:25-40 | the capacity is the least of the four buckets that is large enough, and above the last the size itself |
| BufferPool.Pool.Get | pkg/websocket/pool.go:25-40 | a buffer of the bucket's capacity that nobody else has |
| BufferPool.Pool.Put | pkg/websocket/pool.go:43-57 | only a lent buffer goes back, to the bucket of its own capacity or to the collector, and nothing is known of its bytes from then on |
| Compression.GrowBuffer | pkg/websocket/compression.go:99-119 | the larger buffer holds the same bytes, copied before the old one is put back, and the branch that cannot grow is not taken |
| Compression.ReadSome | pkg/websocket/compression.go:99-124 | one pass appends what the inflater gives and never asks it for zero bytes |
| Compression.DecompressData | pkg/websocket/compression.go:82-150 | the whole stream if it ends cleanly within the limit, else the error that applies, however reads are cut; no buffer asked for exceeds the initial size and limit + 1; all but the result are put back |
| Compression.PooledWriter.Write | pkg/websocket/pool.go:64-90 | the content is extended by the data, and growth copies stay below twice the content |
| Compression.PooledWriter.Reserve | pkg/websocket/pool.go:65-84 | room is made with the same content, and exactly one buffer stays lent |
| Compression.Inflate | pkg/websocket/compression.go:98-137 | the loop returns the stream or the error that applies, and the buffer it was given is put back, or is or grows into the one returned |
| Compression.CompressData | pkg/websocket/compression.go:52-79 | one lent buffer holds the whole deflate output, in whatever pieces it was written; when the flate writer fails the buffer goes back |
| Assemblers.Assembler.Begin | pkg/websocket/assembler.go:55-71 | a first fragment, also an empty one, is copied into a buffer of its own |
| Assemblers.Assembler.Extend | pkg/websocket/assembler.go:88-108 | the payload is appended, the pool's books balance, and all growth copies of the message stay below twice its length |
| Assemblers.Assembler.Finish | pkg/websocket/assembler.go:110-129 | delivery of the buffer or of what it inflates to, and the assembler is idle |
| Assemblers.Assembler.Continue | pkg/websocket/assembler.go:74-132 | the continuation half refines the machine on sequences |
| Assemblers.Assembler.ProcessFrame | pkg/websocket/assembler.go:31-133 | the class does what the machine says; every buffer held before is put back, still held, or handed over |
| ServeConns.Session.Control | pkg/websocket/websocket.go:360-373 | the callbacks of each control opcode, and closing on a close frame only |
| ServeConns.Session.DataFrame | pkg/websocket/websocket.go:374-388 | delivery from live memory, and a reassembled message is put back once |
| ServeConns.Session.ProcessFrame | pkg/websocket/websocket.go:356-389 | the machine's step on the payload unmasked in place |
| ServeConns.Session.NetpollBody | pkg/websocket/websocket.go:293-332 | the payload half of a pass, on netpoll-owned memory that never enters the pool |
| ServeConns.Session.NetpollOnce | pkg/websocket/websocket.go:247-332 | one pass is the machine's pass; a close frame and nothing else deactivates the connection |
| ServeConns.Session.ServeNetpoll | pkg/websocket/websocket.go:243-354 | the loop is the machine's run on what has arrived, and only the assembler's buffer stays lent |
| ServeConns.Session.ServeArrivals | pkg/websocket/websocket.go:224-226 | over all arrivals the callbacks are those of one connection-long run |
| ServeConns.Session.BufferedBody | pkg/websocket/websocket.go:300-332 | the payload buffer is taken and put back on every way out, after its last use |
| ServeConns.Session.PooledFrame | pkg/websocket/websocket.go:321-332 | the frame is processed in the pool's buffer before that goes back |
| ServeConns.Session.LoseBuffer | pkg/websocket/pool.go:25-27 | the buffer taken before the slicing panics is lost |
| ServeConns.Session.BufferedOnce | pkg/websocket/websocket.go:263-332 | one pass of the buffered path, errors included; a buffer is lost exactly on a panic |
| ServeConns.Session.ServeBuffered | pkg/websocket/websocket.go:243-354 | one callback works while two bytes are here, waits inside a frame for its rest, and carries on the machine's run on everything unread |
| ServeConns.Session.ServeBufferedArrivals | pkg/websocket/websocket.go:224-226 | for every split of the stream the callbacks, the remainder and the state are those of the run on all of it; one buffer is lost exactly when that run panics |
| MessageWriter.Prepare | pkg/websocket/writer.go:23-48 | the header and payload of the frame, compressed into a buffer of the pool or not, or the failure of the flate writer or the key generator |
| MessageWriter.SendPayload | pkg/websocket/writer.go:58-84 | masked bytes go out as far as the connection takes them, a copy is made where the payload is the application's, buffers are put back after the write, failed or not |
| MessageWriter.SendFrame | pkg/websocket/writer.go:50-86 | header and payload go out as far as the connection takes them, and a compressed buffer is lost exactly when the header fails or nothing is in it |
| MessageWriter.ResultMeaning | pkg/websocket/writer.go:33-87 | each result, and exactly when; a failed write has passed on what there was room for |
| MessageWriter.WriteMessage | pkg/websocket/writer.go:18-87 | the result and the bytes on the wire for every failure of flate writer, key generator and connection; every buffer is back, but for the exactly stated cases in which a compressed one is lost; the application's payload is untouched |
| MessageWriter.WrittenInTwo | pkg/websocket/writer.go:53-75 | header and payload written one after the other are the frame written at once, also where the connection fails |
| MessageWriter.LostBufferExample | pkg/websocket/writer.go:43-48 | a kilobyte sent without a key loses one buffer |
| ConnLifecycle.InvKept | pkg/engine/engine.go:169-241 | every step of every goroutine keeps the invariant of count, gate, tokens and channel |
| ConnLifecycle.GateExcludes | pkg/engine/engine.go:208-210 | in every reachable state the flag is up if and only if a goroutine is inside the serving region, and then only one |
| ConnLifecycle.CountIsReferences | pkg/engine/engine.go:169-187 | the count is the number of goroutines with a reference; a pooled state has none |
| ConnLifecycle.NothingTouchesAReturnedState | pkg/engine/engine.go:176-187 | no step touches a state that is back in the pool, and the last release runs alone |
| ConnLifecycle.ReturnedExactlyOnce | pkg/engine/engine.go:176-187 | reader and writer go back once, at the last release, and are nobody else's until then |
| ConnLifecycle.DoneClosedOnce | pkg/engine/engine.go:102-109 | the channel is closed at most once in a lifetime, and only while it is open |
| ConnLifecycle.EarlyExitStrandsIff | pkg/engine/engine.go:294-330 | an early exit strands bytes if and only if some are not consumed, no callback is owed and no other goroutine will look |
| ConnLifecycle.NoCallbackIsLostIff | pkg/engine/engine.go:392-413 | no state of a run has stranded bytes if and only if its early exits are careful; runs that end through the tail need no condition |
| ConnLifecycle.QuietMeansConsumed | pkg/engine/engine.go:392-413 | after such a run, once no callback is owed and nobody will look, all that arrived has been consumed |
| ConnLifecycle.StrandedStays | pkg/engine/engine.go:392-413 | stranded bytes stay so, whatever anyone does, until more arrive or a callback starts |
| ConnLifecycle.EarlyExitCanLose | pkg/engine/engine.go:294-330 | a reachable state in which an early exit has stranded bytes |
| ConnLimiter.TheLimitHolds | pkg/server/server.go:135-160 | live connections never exceed a positive limit; the counter is live connections plus those inside OnPrepare, never negative |
| ConnLimiter.TurnedAwayIff | pkg/server/server.go:137-142 | a connection is turned away if and only if live ones and those inside OnPrepare had reached the limit when it was counted, whatever happens next |
| ConnLimiter.InFlightRejectionsCount | pkg/server/server.go:137-142 | a run in which a connection is turned away while none is live |

## Left out

- Sockets, netpoll's event loop, deadlines, goroutine scheduling: connections are byte sequences, goroutines are steps.
- `http.ReadRequest`, the handler, draining of request bodies, the sorting of headers by name when they are
  printed: opaque, parameters or left as they come.
- The clock behind Date, `http.DetectContentType` itself, `CloseNotify`, full duplex, read and write deadlines, recycling of
  ResponseWriter objects: no framing content.
- Failing writes to the `bufio.Writer` of a response.
- MessageWriter.WriteMessage: a connection fails once its room is used up, and does not recover.
- ServeConns.Session.ServeBuffered: the tail for connections that are not netpoll's is not modelled (pkg/websocket/websocket.go:334-352).
- BufferPool.Pool.Get: a bucket is a set, so the order in which a sync.Pool returns buffers, and buffers it drops, are not modelled beyond "any or new".
- ConnLifecycle.InvKept: the fields of `ConnectionState` are the state of a step system rather than of a class, because goroutines interleave between its atomic operations; request contents, handlers and panics are not in it.
- ConnLimiter.TheLimitHolds: the failing SetReadTimeout path, after which no disconnect callback is certain, and the wrap-around of the 32-bit counter.
- The `Upgrade` handshake, the client's dialling and waiting, origin checks, options, start-up and shutdown of the server: library plumbing or easy members.
