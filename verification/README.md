# StarIntel edge runtime: verified model

The edge runtime keeps a Lisp system (ECL) in a child process. A Java client hands it JSON requests over two pipes, a C
runner reads them, an adapter calls one fixed Lisp function and sends back its answer. Around the child a controller
starts, stops and watches it. This project models the parts of that system where a mistake is hard to see, and proves
what they promise, for all inputs and all interleavings. `dafny verify dfyconfig.toml` checks it.

## The text boundary

- `Utf8`, `Utf16` - the scalar codec: the loops of the header, and the encodings of RFC 3629 and RFC 2781 as the
  independent definition they are exact against.
- `Memory` - a heap whose allocations fail in any pattern, with the set of blocks that are live.
- `Transcode` - the conversions between Java and native strings, which measure first and fill afterwards.
- `JsonString`, `EnvelopeGrammar`, `Envelope` - the string decoder and the closed-object parser. The grammar is given
  by a printer (items, members, documents); parser and printer undo each other, and what a string denotes is defined
  once more by its bytes alone. `Envelope` is the parser with its
  cursors, its struct and its allocations.
- `Response` - the answer of the dispatcher, read twice, with any change between the two readings.

## The child and its client

- `Adapter` - start, request and stop of the native runtime, with its flags, mutex, boots and shutdowns. The Lisp side
  is a function from the calls made so far to the value returned.
- `Pipes`, `Framing`, `Runner` - the transfer loops under arbitrary splitting, the requests of a byte stream as a
  function of the stream, and the runner's loop and exit code against it.
- `ClientText` - text from a Java caller to the dispatcher and back.
- `OwnedProcess` - the client's fields, each region of code that touches them, and its two calls when no other thread
  disturbs them. `OwnedPort` is the lifecycle's port on top.
- `Protocol` - client and child together as a step system: constructor thread, any number of callers, the retained
  worker, the reaper, the child and the bytes in the pipes. Deadlines pass, threads are interrupted, transfers fail and
  the child exits at any moment.
- `ProtocolInvariant` - what every step keeps, thread by thread. `Guarantees` - what follows for every run: answers
  belong to their requests, late answers reach nobody, confirmed retirement is true for ever. `Outcomes` - what it
  means that a call or a launch is turned away. `Progress` - that calls end, retirement can always still be confirmed,
  and undisturbed starts, requests and stops succeed.

## Lifecycle

- `Controller` - the controller as a step system of locked regions and unlocked worker steps, and as a class. A stop on
  a closed controller whose cleanup has failed moves to STOPPING and is then refused by the executor that is shut down:
  `WedgeExactly` says that this is the only way to get stuck, `WedgeIsReachable` gives the run.
- `Lifecycle` - open and close over a port whose calls return or throw in any pattern.

## Two algorithms

- `PhaseDag` - the check of phase identifiers, references and dependencies by depth-first search.
- `NumberForm` - the comparison of JSON numbers with unbounded exponents. Values are reals; powers of ten are exact.

`Options` holds the one type for values that may be missing.

## Model

| member | source | states |
|---|---|---|
| Utf8.Encode | platforms/android/native/starintel_utf.h:18-31 | the encoding of a scalar is as long as the width function announces |
| Utf8.Width | platforms/android/native/starintel_utf.h:12-16 | zero exactly for values that are no scalar: surrogates and everything above U+10FFFF |
| Utf8.EncodeInto | platforms/android/native/starintel_utf.h:18-31 | the loop that fills from the last byte writes exactly the encoding, leaves the rest of the buffer alone, and writes nothing for a value that is no scalar |
| Utf8.EncodeLong | platforms/android/native/starintel_utf.h:22-29 | the loop from the last byte to the lead writes the bytes of a longer encoding, each in its place, and no other |
| Utf8.Next | platforms/android/native/starintel_utf.h:33-57 | succeeds exactly when a well-formed sequence is at the cursor, then consumes it and yields its scalar; on failure neither cursor nor scalar changes |
| Utf8.Count | platforms/android/native/starintel_utf.h:59-69 | succeeds exactly on well-formed text and then counts its scalars |
| Utf8.BoundedStrlen | platforms/android/native/starintel_utf.h:100-106 | the length of the text before the first NUL, cut off at the bound, without reading behind the bound |
| Utf8.UntilNulOf | platforms/android/native/starintel_utf.h:100-106 | text without NUL, followed by a NUL and anything else, is what the scan finds |
| Utf8.ShiftedIsPayload | platforms/android/native/starintel_utf.h:48-52 | the shifted accumulation of the code is the value of the payload bits |
| Utf8.TailsAreRequired | platforms/android/native/starintel_utf.h:48-52 | every byte behind the lead is checked to be a continuation byte |
| Utf8.RangeCheck | platforms/android/native/starintel_utf.h:42-53 | the lead ranges, the minimum and the width test together accept exactly the sequences of section 4 of RFC 3629: no overlong form, no surrogate, nothing above U+10FFFF |
| Utf8.EncodeIsChar | platforms/android/native/starintel_utf.h:18-31 | every encoding is one well-formed sequence whose value is the scalar |
| Utf8.CharIsEncode | platforms/android/native/starintel_utf.h:33-57 | every well-formed sequence is the encoding of its value |
| Utf8.EncodingKeepsOrder | platforms/android/native/starintel_utf.h:18-31 | the bytes of two encodings are ordered as the scalars are, as section 1 of RFC 3629 says |
| Utf8.EncodeThenDecode | platforms/android/native/starintel_utf.h:18-69 | decoding gives back every list of scalars from its encoding |
| Utf8.DecodeThenEncode | platforms/android/native/starintel_utf.h:18-69 | encoding gives back every well-formed text from its decoding |
| Utf8.AcceptedIffEncoded | platforms/android/native/starintel_utf.h:59-69 | the decoder consumes an array exactly when it is the encoding of some list of scalars, which is unique |
| Utf8.EncodeAllConcat | platforms/android/native/starintel_utf.h:18-31 | encoding distributes over concatenation |
| Utf8.NulIffZeroScalar | platforms/android/native/starintel_utf.h:1-5 | a zero byte occurs in encoded text exactly for U+0000 |
| Utf16.NextUnit | platforms/android/native/starintel_utf.h:71-88 | succeeds exactly when a unit or a surrogate pair of section 2.2 of RFC 2781 is at the cursor; on failure nothing changes |
| Utf16.EncodeUnitsInto | platforms/android/native/starintel_utf.h:90-98 | writes exactly the one or two units of a scalar, and nothing for a value that is no scalar |
| Utf16.PairHoldsTwentyBits | platforms/android/native/starintel_utf.h:71-98 | a pair holds the higher ten bits of its scalar above U+FFFF in its first unit and the lower ten in its second, in both directions |
| Utf16.SingleUnit | platforms/android/native/starintel_utf.h:71-88 | every other unit is itself, and half a pair is nothing |
| Utf16.UnitsRoundTrip | platforms/android/native/starintel_utf.h:71-98 | decoding gives back every list of scalars from its units |
| Utf16.DecodeUnitsThenEncode | platforms/android/native/starintel_utf.h:71-98 | encoding gives back every well-formed string of units from its scalars |
| Utf16.UnitsAcceptedIffEncoded | platforms/android/native/starintel_utf.h:71-88 | a string of units is well-formed exactly when it encodes some list of scalars |
| Utf16.UnitsFitInBytes | platforms/android/native/starintel_ecl_jni.c:61-62 | a text never has more UTF-16 units than UTF-8 bytes |
| Memory.Heap.MallocBytes | platforms/android/native/starintel_ecl_envelope.h:65-67 | a failed call adds nothing to the live blocks, a successful one exactly its new block |
| Memory.Heap.Free | platforms/android/native/starintel_ecl_envelope.h:168-174 | removes exactly its block, and does nothing for null |
| Transcode.ScanDecidesAdmissible | platforms/android/native/starintel_ecl_jni.c:20-36 | the first pass ends well exactly for well-formed units without NUL whose encoding fits the limit |
| Transcode.ScanReports | platforms/android/native/starintel_ecl_jni.c:26-36 | too large is reported exactly when some front is good text that does not fit, ill-formed exactly when no such front exists and the units are not admissible |
| Transcode.AdmissibleIsShort | platforms/android/native/starintel_ecl_jni.c:20-23 | the early length test refuses nothing that the rest would admit |
| Transcode.MeasuredIsExact | platforms/android/native/starintel_ecl_jni.c:26-36 | what the first pass counts is the length of the encoding |
| Transcode.Measure | platforms/android/native/starintel_ecl_jni.c:26-36 | fits exactly for admissible units, then with the length of their encoding as the count; too large exactly when some front is good text that does not fit; ill-formed otherwise |
| Transcode.Fill | platforms/android/native/starintel_ecl_jni.c:42-47 | the second loop writes exactly the encoding and its terminator, as many bytes as were counted |
| Transcode.JavaUtf8 | platforms/android/native/starintel_ecl_jni.c:11-51 | succeeds exactly for admissible units when the memory is there, then holds their encoding and a terminator; otherwise no block is left, and the failure is TOO_LARGE exactly for too many units or a front that does not fit, ALLOCATION_FAILED exactly for admissible units, and INVALID_ENCODING in the remaining cases |
| Transcode.FillUnits | platforms/android/native/starintel_ecl_jni.c:64-70 | never writes more units than there are bytes, and stops at the first ill-formed sequence |
| Transcode.JavaString | platforms/android/native/starintel_ecl_jni.c:53-74 | yields the units of the text before the terminator when it is well-formed and within the limit, and frees its buffer in every case |
| Transcode.TranscodingIsIdentity | platforms/android/native/starintel_ecl_jni.c:11-74 | java_string after java_utf8 is the identity, whatever lies behind the terminator |
| JsonString.HexValueIsExact | platforms/android/native/starintel_ecl_envelope.h:34-43 | the digits of both cases have the values 0 to 15 in order, and everything else is refused |
| JsonString.ShortMeaningIsExact | platforms/android/native/starintel_ecl_envelope.h:85-112 | the eight letters of the two-byte escapes in section 7 of RFC 8259 yield their eight characters, and no other byte yields anything |
| JsonString.FrontItemIsSpelled | platforms/android/native/starintel_ecl_envelope.h:68-155 | what the parser takes from the front of a string is the spelling of a valid item of section 7 of RFC 8259 |
| JsonString.SpelledIsFrontItem | platforms/android/native/starintel_ecl_envelope.h:68-155 | and every spelling of a valid item is taken, whatever follows |
| JsonString.MeaningIsShorter | platforms/android/native/starintel_ecl_envelope.h:60-62 | what an item denotes never takes more bytes than its spelling, so the capacity guards cannot fire |
| JsonString.BodyIsExact | platforms/android/native/starintel_ecl_envelope.h:68-158 | a body up to its quote is accepted exactly when it is a list of spelled items, which is unique |
| JsonString.ItemSpells | platforms/android/native/starintel_ecl_envelope.h:68-155 | what an item means is what its bytes write, in a definition of section 7 of RFC 8259 that is given by bytes and numbers alone |
| JsonString.SpelledIsItem | platforms/android/native/starintel_ecl_envelope.h:68-155 | and every way to write a character is an item with that character |
| JsonString.BodyDenotes | platforms/android/native/starintel_ecl_envelope.h:68-158 | the text the decoder yields is the one its input denotes |
| JsonString.DenotedIsBody | platforms/android/native/starintel_ecl_envelope.h:68-158 | and everything that denotes a text is decoded to that text |
| JsonString.ReadHex | platforms/android/native/starintel_ecl_envelope.h:114-124 | succeeds exactly on four hexadecimal digits, with the number they spell, and stops behind them |
| JsonString.ReadUnicode | platforms/android/native/starintel_ecl_envelope.h:113-151 | escapes with surrogates are accepted exactly as pairs, and yield their scalar |
| JsonString.ReadEscape | platforms/android/native/starintel_ecl_envelope.h:83-154 | each of the eight letters yields its character, any other letter but u fails, and on success the bytes taken write the scalar |
| JsonString.DecodeItem | platforms/android/native/starintel_ecl_envelope.h:68-155 | one trip through the loop takes exactly the item at the cursor, raw or escaped, and writes the UTF-8 of what it denotes and nothing else |
| JsonString.CopyRaw | platforms/android/native/starintel_ecl_envelope.h:70-82 | a character that stands for itself is copied exactly when it is well-formed |
| JsonString.DecodeEscape | platforms/android/native/starintel_ecl_envelope.h:83-155 | an escape is replaced by the UTF-8 of what it denotes |
| JsonString.DecodeNext | platforms/android/native/starintel_ecl_envelope.h:68-155 | what has been written plus what the rest denotes stays the meaning of the whole string, within the capacity |
| JsonString.FillString | platforms/android/native/starintel_ecl_envelope.h:68-159 | the loop ends well exactly at the closing quote of an accepted body, with its meaning in the buffer |
| JsonString.ParseString | platforms/android/native/starintel_ecl_envelope.h:50-166 | with memory, succeeds exactly when a string of section 7 of RFC 8259 is at the cursor; the block then holds the UTF-8 of the text that the bytes between the quotes denote, and a terminator, and the cursor is behind the quote; a failure leaves no block |
| JsonString.TheString | platforms/android/native/starintel_ecl_envelope.h:50-166 | at most one string starts at a place, and it is the one the decoder reads |
| EnvelopeGrammar.ParsePrinted | platforms/android/native/starintel_ecl_envelope.h:184-254 | every rendering of members, in any order, spelling and white space, is read back as exactly those members |
| EnvelopeGrammar.ParsedIsPrinted | platforms/android/native/starintel_ecl_envelope.h:184-254 | everything the grammar accepts is such a rendering |
| EnvelopeGrammar.ParseIsExact | platforms/android/native/starintel_ecl_envelope.h:176-183 | a text is accepted exactly when it is the rendering of a document, with nothing behind it |
| EnvelopeGrammar.AssignedIffKeysFit | platforms/android/native/starintel_ecl_envelope.h:220-236 | members can be stored exactly when their names are known and none comes twice |
| EnvelopeGrammar.AssignedIsLookup | platforms/android/native/starintel_ecl_envelope.h:220-236 | what is stored for a name is the value of its member |
| EnvelopeGrammar.AssignedSays | platforms/android/native/starintel_ecl_envelope.h:220-236 | the field of a name is the value of the member that has this name, and empty when none has it |
| EnvelopeGrammar.RequestIsAccepted | platforms/android/native/starintel_ecl_envelope.h:176-254 | a rendering is accepted exactly when every member has one of the three names, no two the same, and the operation is there and not empty; each field is then what the members say |
| EnvelopeGrammar.TokensAreJson | platforms/android/native/starintel_ecl_envelope.h:27-32 | the white space and the punctuation are those of section 2 of RFC 8259 |
| EnvelopeGrammar.ReadIsPrinted | platforms/android/native/starintel_ecl_envelope.h:205-215 | a member that is read is a printed member |
| EnvelopeGrammar.ReadPrinted | platforms/android/native/starintel_ecl_envelope.h:205-215 | a printed member is read as its name and value |
| EnvelopeGrammar.ReadMembersArePrinted | platforms/android/native/starintel_ecl_envelope.h:201-248 | the member list that is read is a printed list with commas between |
| EnvelopeGrammar.ReadPrintedMembers | platforms/android/native/starintel_ecl_envelope.h:201-248 | a printed list of members is read as those members |
| Envelope.SkipBlank | platforms/android/native/starintel_ecl_envelope.h:27-32 | stops at the first byte that is no white space of section 2 of RFC 8259 |
| Envelope.ParseMember | platforms/android/native/starintel_ecl_envelope.h:205-219 | reads name, colon and value, and frees the name when the rest fails |
| Envelope.Assign | platforms/android/native/starintel_ecl_envelope.h:220-232 | the value goes into the field of its name exactly when that is known and free; the struct then represents the members with the new one, otherwise the same members |
| Envelope.StoreMember | platforms/android/native/starintel_ecl_envelope.h:220-237 | moves the value into the field of its name exactly when that is known and free, and frees what is not kept |
| Envelope.ParseMembers | platforms/android/native/starintel_ecl_envelope.h:201-249 | the member loop follows the grammar and runs at most four times |
| Envelope.ParseEnvelope | platforms/android/native/starintel_ecl_envelope.h:184-254 | succeeds exactly for acceptable text and memory, with one block per member; a failure leaves the struct cleared and no block, whichever allocation fails |
| Envelope.EnvelopeData.Free | platforms/android/native/starintel_ecl_envelope.h:168-174 | frees every block of the struct and clears it |
| Response.ErrorJson | platforms/android/native/starintel_ecl_adapter.c:55-64 | a fresh block with the error object for the reason, or null without memory |
| Response.MeasureReading | platforms/android/native/starintel_ecl_adapter.c:140-150 | the first pass: the total length, or which of the two refusals comes first |
| Response.FillReading | platforms/android/native/starintel_ecl_adapter.c:154-165 | the second pass over possibly changed contents never writes behind the measured length, and fills exactly what it accepts |
| Response.Utf8Response | platforms/android/native/starintel_ecl_adapter.c:130-168 | for any contents of the two passes, the answer is the specified text with a terminator in a fresh block, or nothing without memory |
| Response.ReplyIsCleanText | platforms/android/native/starintel_ecl_adapter.c:130-168 | whatever the second pass finds, the answer is an error object or well-formed text without NUL |
| Response.StableReplyIsExact | platforms/android/native/starintel_ecl_adapter.c:154-168 | if the contents did not change, the second guard never fires and the answer is their exact encoding |
| Response.SizedIff | platforms/android/native/starintel_ecl_adapter.c:140-150 | the first pass lets an answer through exactly when all its characters may be sent and it fits |
| Response.SizeReports | platforms/android/native/starintel_ecl_adapter.c:140-150 | too large is reported exactly when some front may be sent and does not fit, unsendable exactly when no such front exists and some character must not be sent |
| Response.RefitsIff | platforms/android/native/starintel_ecl_adapter.c:154-165 | the second pass accepts exactly what may be sent and is no longer than measured |
| Response.ReplyIs | platforms/android/native/starintel_ecl_adapter.c:130-168 | which of the two error objects, or which text, answers a value, in terms of the two readings alone |
| Response.SendableIsExact | platforms/android/native/starintel_ecl_adapter.c:143-146 | of the control characters only tab, line feed and carriage return may be sent, and every other scalar may |
| Response.LispStringFromUtf8 | platforms/android/native/starintel_ecl_adapter.c:107-123 | succeeds exactly on well-formed text and then holds its scalars, U+0000 included |
| Adapter.Runtime.Check | platforms/android/native/starintel_ecl_adapter.c:222-262 | the tests before the boot, in their order, with the reason of the first that fails |
| Adapter.RefusalIs | platforms/android/native/starintel_ecl_adapter.c:222-262 | each of the six refusals with exactly what leads to it |
| Adapter.Runtime.Boot | platforms/android/native/starintel_ecl_adapter.c:263-353 | one boot is recorded whether it succeeds or not; the start fails exactly when boot, memory, assets or dispatcher fail, with the reason for it, and then shuts down what it booted |
| Adapter.Runtime.Start | platforms/android/native/starintel_ecl_adapter.c:209-363 | reports success exactly when nothing refuses it, boots at most once per process, and frees the mutex on every path; a second start and a restart are refused by name |
| Adapter.Runtime.Stop | platforms/android/native/starintel_ecl_adapter.c:413-423 | shuts down once exactly when started, never boots, and frees the mutex |
| Adapter.Runtime.Dispatch | platforms/android/native/starintel_ecl_adapter.c:389-402 | the dispatcher is called once, with operation, payload and capability of the envelope in this order, and NIL for an absent one |
| Adapter.Runtime.Serve | platforms/android/native/starintel_ecl_adapter.c:379-402 | the envelope is parsed, dispatched and freed, and nothing but the answer is left |
| Adapter.Runtime.Request | platforms/android/native/starintel_ecl_adapter.c:365-406 | the dispatcher is called exactly for an acceptable request of a started runtime, with its operation, payload and capability as they are; every other request gets the error text of the first fault it has; the mutex is free at the end |
| Pipes.ReadExact | platforms/android/native/starintel_ecl_runner.c:19-29 | with any splitting and interruptions: all bytes, or end of file before the first byte, or failure |
| Pipes.WriteExact | platforms/android/native/starintel_ecl_runner.c:35-63 | with any splitting and interruptions: all bytes are written, or a prefix and failure |
| Pipes.WriteFrame | platforms/android/native/starintel_ecl_runner.c:65-73 | writes exactly the frame of the body; an empty body is its header alone |
| Pipes.HeaderRoundTrip | platforms/android/native/starintel_ecl_runner.c:67-70 | the four length bytes denote the length |
| Pipes.HeaderIsBigEndian | platforms/android/native/starintel_ecl_runner.c:67-70 | the first of the four bytes counts most |
| Framing.HeaderIsInjective | platforms/android/native/starintel_ecl_runner.c:134-135 | every four bytes are the header of the length they denote |
| Framing.FrameIsRead | platforms/android/native/starintel_ecl_runner.c:126-147 | a legal frame is read as its body, whatever follows |
| Framing.FramesAreRead | platforms/android/native/starintel_ecl_runner.c:126-147 | any list of legal requests is read back from its frames as exactly that list |
| Framing.RequestsAreFrames | platforms/android/native/starintel_ecl_runner.c:126-147 | what is read are legal bodies only, and their frames are the bytes consumed |
| Framing.StreamStep | platforms/android/native/starintel_ecl_runner.c:126-147 | reading takes one frame, or stops where none is |
| Runner.ValidText | platforms/android/native/starintel_ecl_runner.c:75-83 | true exactly for well-formed text without U+0000 |
| Runner.ReadRequest | platforms/android/native/starintel_ecl_runner.c:127-147 | only a complete legal frame yields a request; end of file counts as clean only before the first header byte; a broken frame leaves no block |
| Runner.ReadBody | platforms/android/native/starintel_ecl_runner.c:142-147 | a body is handed on exactly when it is complete and legal, with its terminator; otherwise its block is freed |
| Runner.Ask | platforms/android/native/starintel_ecl_runner.c:148-155 | the request reaches the adapter with its whole length, its block is freed, and only a legal answer comes back |
| Runner.CheckResponse | platforms/android/native/starintel_ecl_runner.c:151-155 | a response goes on exactly when it is a legal answer, with its whole length; otherwise its block is freed |
| Runner.OneFrame | platforms/android/native/starintel_ecl_runner.c:126-159 | one trip through the loop: what is consumed, dispatched, written and left in memory, and why it ends |
| Runner.FrameLoop | platforms/android/native/starintel_ecl_runner.c:126-159 | requests and answers are those of the byte stream, never of the way the pipes cut it; no partial frame is dispatched |
| Runner.AnswersOfPrefix | platforms/android/native/starintel_ecl_runner.c:126-159 | later requests do not change earlier answers |
| Runner.AnswerAt | platforms/android/native/starintel_ecl_runner.c:126-159 | the answer at a place is the one owed to the request at that place, given all the requests before it |
| Runner.Acknowledge | platforms/android/native/starintel_ecl_runner.c:138 | the acknowledgement may be written only when ECL is stopped and every boot was shut down; code 0 means that it was written |
| Runner.StopAndAcknowledge | platforms/android/native/starintel_ecl_runner.c:136-140 | a zero-length frame stops ECL and is then acknowledged |
| Runner.RunBooted | platforms/android/native/starintel_ecl_runner.c:124-165 | whatever the code, the output is the front of the greeting, or the greeting, the frames of the answers and a torn answer or acknowledgement; code 0 means clean end of file or a written acknowledgement, 65 a broken frame, 74 an acknowledgement that failed, 70 anything else; without faults of its own the child ends with 0 or, for a broken frame, with 65 |
| Runner.Run | platforms/android/native/starintel_ecl_runner.c:100-166 | over every run: boots and shutdowns are equal and at most one, no block is left, nothing is read or written unless ECL was booted, the output is that of the loop, 64 stands for bad arguments, and code 0 means all requests were answered in order and the end was clean |
| ClientText.EncodesExactly | platforms/android/edge-service/src/main/java/actor/starintel/edge/service/OwnedEclProcess.java:200-209 | encode admits exactly bounded, well-formed strings without NUL; its length test on units excludes nothing more |
| ClientText.RequestArrives | platforms/android/edge-service/src/main/java/actor/starintel/edge/service/OwnedEclProcess.java:102-107 | every request that encode admits passes the runner's checks and reaches the adapter with its whole length and its text |
| ClientText.AnswerArrives | platforms/android/edge-service/src/main/java/actor/starintel/edge/service/OwnedEclProcess.java:189-198 | whatever the adapter can return and is not empty - a reply, an error object, the complaint that memory ran out - passes the runner and readFrame, with the same scalars |
| ClientText.BothEndsAgree | platforms/android/edge-service/src/main/java/actor/starintel/edge/service/OwnedEclProcess.java:189-198 | the runner and the client accept the same answers |
| ClientText.LispTextReachesJava | platforms/android/native/starintel_ecl_adapter.c:130-168 | a stable string of the dispatcher arrives at the Java caller character by character |
| ClientText.JavaTextReachesLisp | platforms/android/native/starintel_ecl_adapter.c:365-406 | a document the Java caller sends arrives as the fields it spells, and after any history it makes one more call, whose operation, payload and capability are the values of the members with these names, and nothing where no member has the name |
| OwnedProcess.ReadFrame | platforms/android/edge-service/src/main/java/actor/starintel/edge/service/OwnedEclProcess.java:189-198 | a text comes back exactly when a whole acceptable response is at the front of the stream, however the pipe cuts it |
| OwnedProcess.HasNul | platforms/android/edge-service/src/main/java/actor/starintel/edge/service/OwnedEclProcess.java:193 | finds a literal NUL exactly when there is one |
| OwnedProcess.SendRequest | platforms/android/edge-service/src/main/java/actor/starintel/edge/service/OwnedEclProcess.java:104-107 | the job of a request: the frame goes out, and the text is that of the response at the front |
| OwnedProcess.SendStop | platforms/android/edge-service/src/main/java/actor/starintel/edge/service/OwnedEclProcess.java:126-127 | the job of a stop: the empty frame goes out, and only a zero length acknowledges it |
| OwnedProcess.OwnedEclProcess.Admit | platforms/android/edge-service/src/main/java/actor/starintel/edge/service/OwnedEclProcess.java:164-167 | granted exactly when nobody is admitted and the client is open; a refusal changes nothing |
| OwnedProcess.OwnedEclProcess.Retire | platforms/android/edge-service/src/main/java/actor/starintel/edge/service/OwnedEclProcess.java:239-244 | the client is closed, and only the first call starts the reaper |
| OwnedProcess.OwnedEclProcess.Launch | platforms/android/edge-service/src/main/java/actor/starintel/edge/service/OwnedEclProcess.java:75-93 | the job of the constructor: every child that is created is published, it succeeds exactly for a child whose first response is the greeting, and on every path the launch counts as finished afterwards |
| OwnedProcess.OwnedEclProcess.Reap | platforms/android/edge-service/src/main/java/actor/starintel/edge/service/OwnedEclProcess.java:247-272 | may be called only when the launch ended without a child or the child has exited; then confirms the retirement and lets the worker go |
| OwnedProcess.OwnedEclProcess.StopInOrder | platforms/android/edge-service/src/main/java/actor/starintel/edge/service/OwnedEclProcess.java:132-135 | the client counts as stopped in order exactly after exit code zero |
| OwnedProcess.OwnedEclProcess.Exchange | platforms/android/edge-service/src/main/java/actor/starintel/edge/service/OwnedEclProcess.java:169-180 | whatever goes wrong in an exchange retires the child, and a late task sends nothing |
| OwnedProcess.OwnedEclProcess.Request | platforms/android/edge-service/src/main/java/actor/starintel/edge/service/OwnedEclProcess.java:98-109 | an undisturbed request: who is refused, what is sent, which text returns, and that only a failed exchange retires the child |
| OwnedProcess.OwnedEclProcess.Close | platforms/android/edge-service/src/main/java/actor/starintel/edge/service/OwnedEclProcess.java:120-141 | an undisturbed close: it returns normally only after acknowledgement and exit code zero, or when that happened before |
| OwnedPort.OwnedEclNativePort.Start | platforms/android/edge-service/src/main/java/actor/starintel/edge/service/OwnedEclNativePort.java:30-35 | at most one launch per port, successful or not |
| OwnedPort.OwnedEclNativePort.Stop | platforms/android/edge-service/src/main/java/actor/starintel/edge/service/OwnedEclNativePort.java:45-54 | returns normally only without a process or after an orderly stop |
| ProtocolInvariant.AdmissionStep | platforms/android/edge-service/src/main/java/actor/starintel/edge/service/OwnedEclProcess.java:164-167 | every step of anybody keeps: the flag is set exactly while one call holds the admission, and only that call is between admission and release |
| ProtocolInvariant.LifeStep | platforms/android/edge-service/src/main/java/actor/starintel/edge/service/OwnedEclProcess.java:75-95 | every step keeps: what is published, finished and confirmed is so, with the launch in whatever state |
| ProtocolInvariant.StepKeepsExchange | platforms/android/edge-service/src/main/java/actor/starintel/edge/service/OwnedEclProcess.java:98-180 | every step keeps: whose task the worker has, and what is in the pipes while it has it |
| ProtocolInvariant.StepKeepsLogs | platforms/android/edge-service/src/main/java/actor/starintel/edge/service/OwnedEclProcess.java:98-109 | every step keeps: each answer belongs to one call, and the streams are what the logs say |
| ProtocolInvariant.StepInv | platforms/android/edge-service/src/main/java/actor/starintel/edge/service/OwnedEclProcess.java:30-277 | every step of every thread and of the child keeps the whole invariant |
| ProtocolInvariant.RunInv | platforms/android/edge-service/src/main/java/actor/starintel/edge/service/OwnedEclProcess.java:30-277 | so does every run |
| ProtocolInvariant.PartIsNoFrame | platforms/android/native/starintel_ecl_runner.c:131-146 | the front of a frame is not a frame and not a stop, so a request that is half sent is not taken |
| ProtocolInvariant.WholeAnswer | platforms/android/edge-service/src/main/java/actor/starintel/edge/service/OwnedEclProcess.java:189-198 | when the client has read as much as it needs, it has read exactly the answer |
| ProtocolInvariant.ChildWhenRequested | platforms/android/native/starintel_ecl_runner.c:126-158 | a request in the pipe stays there, or is taken and answered |
| ProtocolInvariant.ChildWhileAnswering | platforms/android/native/starintel_ecl_runner.c:156-158 | while an answer is under way the child takes nothing else |
| ProtocolInvariant.AnswerEmptiesPipes | platforms/android/edge-service/src/main/java/actor/starintel/edge/service/OwnedEclProcess.java:104-107 | an answered exchange leaves nothing in the pipes |
| ProtocolInvariant.AcknowledgementIsLast | platforms/android/native/starintel_ecl_runner.c:136-140 | behind the acknowledgement of a stop the child says nothing |
| ProtocolInvariant.AnswerKeepsPairing | platforms/android/edge-service/src/main/java/actor/starintel/edge/service/OwnedEclProcess.java:104-107 | the answer that ends a task is the one to the last request, which no call had before |
| ProtocolInvariant.TakesKeepsStream | platforms/android/native/starintel_ecl_runner.c:126-158 | taking and answering a frame extends both streams by exactly that frame and its answer |
| Guarantees.ResponsePairing | platforms/android/edge-service/src/main/java/actor/starintel/edge/service/OwnedEclProcess.java:98-109 | over every run: a text that request returned is the child's answer to that very request, and no other call got it |
| Guarantees.LogIsDispatched | platforms/android/native/starintel_ecl_runner.c:126-159 | a child that answers truly in every step has given the dispatcher's replies, in order |
| Guarantees.DispatcherAnswers | platforms/android/native/starintel_ecl_runner.c:126-159 | and then the text that request returned is the dispatcher's reply to that very request, after all the earlier ones |
| Guarantees.ChildIsTheRunner | platforms/android/native/starintel_ecl_runner.c:125-158 | the child of the protocol takes the requests of its input stream in order and says greeting, answers and acknowledgement, as the runner does |
| Guarantees.AdmissionIsExclusive | platforms/android/edge-service/src/main/java/actor/starintel/edge/service/OwnedEclProcess.java:164-167 | no two calls hold the admission |
| Guarantees.ReadyFindsAllQuiet | platforms/android/edge-service/src/main/java/actor/starintel/edge/service/OwnedEclProcess.java:171-173 | a call that submits finds an idle worker, empty pipes and an executor that accepts; so it is after text that could not be encoded |
| Guarantees.ClosedDeliversNothing | platforms/android/edge-service/src/main/java/actor/starintel/edge/service/OwnedEclProcess.java:164-187 | from a closed client on, no call returns an answer that had not returned it before |
| Guarantees.FailureCloses | platforms/android/edge-service/src/main/java/actor/starintel/edge/service/OwnedEclProcess.java:179 | a failed exchange has closed the client before it gives the admission back |
| Guarantees.LateAnswerIsNotDelivered | platforms/android/edge-service/src/main/java/actor/starintel/edge/service/OwnedEclProcess.java:98-109 | a late answer to a failed exchange is never delivered, to that call or to a later one |
| Guarantees.ExpiredTaskIsNotSent | platforms/android/edge-service/src/main/java/actor/starintel/edge/service/OwnedEclProcess.java:173-177 | a task that is still queued when its caller's time is over, or the client closed, is never sent |
| Guarantees.RetirementIsTrue | platforms/android/edge-service/src/main/java/actor/starintel/edge/service/OwnedEclProcess.java:147-157 | after confirmed retirement, and after the shutdown of the creating worker, no child is alive and none ever will be, also none from a late launch |
| Guarantees.LiveChildIsWatched | platforms/android/edge-service/src/main/java/actor/starintel/edge/service/OwnedEclProcess.java:246-272 | a child that is alive although the client is closed is still watched, and neither confirmation nor shutdown has happened |
| Guarantees.OrderlyStopIsTrue | platforms/android/edge-service/src/main/java/actor/starintel/edge/service/OwnedEclProcess.java:119-141 | a close that returned normally means: everything asked was answered, the stop acknowledged, the child exited with 0 |
| Guarantees.HealthIsReported | platforms/android/edge-service/src/main/java/actor/starintel/edge/service/OwnedEclProcess.java:159-162 | while a client that was built is open, isAlive reports exactly whether its child is alive; a report of death is final |
| Outcomes.UnsendableIsTrue | platforms/android/edge-service/src/main/java/actor/starintel/edge/service/OwnedEclProcess.java:102-103 | a call that ends as unsendable had a text that cannot be encoded or is empty, and nothing of it was sent; a call with an answer had one that can be sent |
| Outcomes.RefusalIsTrue | platforms/android/edge-service/src/main/java/actor/starintel/edge/service/OwnedEclProcess.java:164-167 | a call is turned away only while another call is under way, or once the client is closed |
| Outcomes.LateLaunchStartsNothing | platforms/android/edge-service/src/main/java/actor/starintel/edge/service/OwnedEclProcess.java:76-79 | a launch that is still queued when its deadline is over, or when the client was closed, never starts a child |
| Outcomes.ClosedLaunchFails | platforms/android/edge-service/src/main/java/actor/starintel/edge/service/OwnedEclProcess.java:79-90 | a launch that has not got to the pipes when the client is closed fails, also when it has started a child |
| Outcomes.FailedStartRetires | platforms/android/edge-service/src/main/java/actor/starintel/edge/service/OwnedEclProcess.java:74-95 | when the constructor has thrown, the client is closed and its child is being retired, or nothing was started and the worker is shut down |
| Outcomes.StopAgainSucceeds | platforms/android/edge-service/src/main/java/actor/starintel/edge/service/OwnedEclProcess.java:122 | a close of a client that was stopped in order ends normally without an admission, whatever else goes on |
| Progress.CallsAreShort | platforms/android/edge-service/src/main/java/actor/starintel/edge/service/OwnedEclProcess.java:98-180 | no call takes more than eight steps of its own, whatever the other threads do |
| Progress.CallCanMove | platforms/android/edge-service/src/main/java/actor/starintel/edge/service/OwnedEclProcess.java:182-187 | and none of them waits for another thread once the deadline has passed |
| Progress.RetirementCanBeConfirmed | platforms/android/edge-service/src/main/java/actor/starintel/edge/service/OwnedEclProcess.java:239-277 | wherever a retirement was requested, with launch and child in whatever state, it can still be confirmed |
| Progress.ReaperConfirms | platforms/android/edge-service/src/main/java/actor/starintel/edge/service/OwnedEclProcess.java:247-272 | with the launch ended childless or the child exited, three steps of the reaper confirm the retirement, however the other threads interleave |
| Progress.ReaperCanMove | platforms/android/edge-service/src/main/java/actor/starintel/edge/service/OwnedEclProcess.java:247-272 | and until then it always has a step to take |
| Progress.RequestCanBeAnswered | platforms/android/edge-service/src/main/java/actor/starintel/edge/service/OwnedEclProcess.java:98-109 | from any serving client, every request that may be sent can be answered with every answer the child may give, and the client serves on |
| Progress.StartCanSucceed | platforms/android/edge-service/src/main/java/actor/starintel/edge/service/OwnedEclProcess.java:71-96 | an undisturbed start ends with a serving client |
| Progress.StopCanSucceed | platforms/android/edge-service/src/main/java/actor/starintel/edge/service/OwnedEclProcess.java:120-141 | an undisturbed stop is an orderly stop |
| Controller.StepInv | platforms/android/edge-service/src/main/java/actor/starintel/edge/service/RuntimeController.java:45-127 | every locked region and every unlocked worker step keeps the invariant of the controller |
| Controller.SessionConservation | platforms/android/edge-service/src/main/java/actor/starintel/edge/service/RuntimeController.java:45-127 | in every reachable state at most one session is open and at most one job exists; an inactive controller owns and does nothing; start is accepted only then |
| Controller.StopBeatsCommit | platforms/android/edge-service/src/main/java/actor/starintel/edge/service/RuntimeController.java:69-101 | after an accepted stop, RUNNING is not entered again without a later accepted start, whatever an opening under way comes back with |
| Controller.StoppingStep | platforms/android/edge-service/src/main/java/actor/starintel/edge/service/RuntimeController.java:83-115 | while STOPPING for one reason only the worker changes the rank, downwards, or the stop settles as that reason says |
| Controller.StoppingSettles | platforms/android/edge-service/src/main/java/actor/starintel/edge/service/RuntimeController.java:76-115 | a stopping controller settles within its rank of worker steps: cleanly in STOPPED for a user's stop and in FAILED/RUNTIME_EXITED for a dead session, or in FAILED/STOP_FAILED with the same session still held |
| Controller.StopSettles | platforms/android/edge-service/src/main/java/actor/starintel/edge/service/RuntimeController.java:83-101 | after an accepted stop of a controller that was not closed, the worker reaches STOPPED, or FAILED/STOP_FAILED holding the session that could not be closed |
| Controller.HealthSettles | platforms/android/edge-service/src/main/java/actor/starintel/edge/service/RuntimeController.java:102-115 | a check that finds the session of a RUNNING controller dead makes it STOPPING/RUNTIME_EXITED with its token cancelled; every later run with three worker steps settles in FAILED/RUNTIME_EXITED with nothing held, or in FAILED/STOP_FAILED with the same session |
| Controller.LiveSessionIsLeft | platforms/android/edge-service/src/main/java/actor/starintel/edge/service/RuntimeController.java:104 | in every reachable state a check changes something exactly when the controller is RUNNING and its session is dead |
| Controller.StartingStep | platforms/android/edge-service/src/main/java/actor/starintel/edge/service/RuntimeController.java:58-81 | while STARTING the worker gets on and nobody else changes anything, or the start ends as backend.open did |
| Controller.StartSettles | platforms/android/edge-service/src/main/java/actor/starintel/edge/service/RuntimeController.java:45-81 | an accepted start that is neither stopped nor closed ends as backend.open does: RUNNING with the session, UNAVAILABLE/BACKEND_MISSING or FAILED/START_FAILED with nothing held |
| Controller.OpenControllerHasJob | platforms/android/edge-service/src/main/java/actor/starintel/edge/service/RuntimeController.java:83-115 | while a controller that was not closed is STOPPING, a job is there that ends it |
| Controller.WorkerCanMove | platforms/android/edge-service/src/main/java/actor/starintel/edge/service/RuntimeController.java:58-98 | while it is STOPPING and not stuck, the worker has something to do |
| Controller.WedgeExactly | platforms/android/edge-service/src/main/java/actor/starintel/edge/service/RuntimeController.java:83-98 | the controller gets stuck in STOPPING exactly when stop is called on a closed controller whose cleanup failed before |
| Controller.WedgedForever | platforms/android/edge-service/src/main/java/actor/starintel/edge/service/RuntimeController.java:83-98 | and then stays so, whatever is called |
| Controller.WedgeIsReachable | platforms/android/edge-service/src/main/java/actor/starintel/edge/service/RuntimeController.java:83-127 | a concrete run that gets there |
| Controller.RunningIsReachable | platforms/android/edge-service/src/main/java/actor/starintel/edge/service/RuntimeController.java:45-75 | a concrete run to RUNNING |
| Controller.RuntimeController.Start | platforms/android/edge-service/src/main/java/actor/starintel/edge/service/RuntimeController.java:45-57 | accepted exactly when not closed, not spent, and neither STARTING, RUNNING, STOPPING nor FAILED/STOP_FAILED; then STARTING with a new token and one job, otherwise unchanged but for UNAVAILABLE/PROCESS_RESTART_REQUIRED |
| Controller.RuntimeController.StopOwned | platforms/android/edge-service/src/main/java/actor/starintel/edge/service/RuntimeController.java:83-101 | the body of stop: accepted exactly for an active controller that is not stopping, and thrown out of exactly by an executor that is shut down, after the state has changed |
| Controller.RuntimeController.Stop | platforms/android/edge-service/src/main/java/actor/starintel/edge/service/RuntimeController.java:83-101 | takes effect exactly from STARTING, RUNNING and FAILED/STOP_FAILED: STOPPING/USER_STOP, the token cancelled, and one disposal job unless it was STARTING; throws exactly on a closed controller whose cleanup failed |
| Controller.RuntimeController.CheckHealth | platforms/android/edge-service/src/main/java/actor/starintel/edge/service/RuntimeController.java:102-115 | changes nothing unless RUNNING with a dead session; then STOPPING/RUNTIME_EXITED, the token cancelled, and one job that disposes of this session |
| Controller.RuntimeController.Close | platforms/android/edge-service/src/main/java/actor/starintel/edge/service/RuntimeController.java:121-127 | stops what can be stopped, with the same effects as stop, then shuts the executor down; closing twice changes nothing |
| Controller.RuntimeController.CommitOpen | platforms/android/edge-service/src/main/java/actor/starintel/edge/service/RuntimeController.java:69-75 | RUNNING with the session that was made exactly when not cancelled and not failed; otherwise it goes on to dispose of it |
| Controller.RuntimeController.SettleOpened | platforms/android/edge-service/src/main/java/actor/starintel/edge/service/RuntimeController.java:77-81 | a failed cleanup keeps the session in FAILED/STOP_FAILED; a clean one ends in STOPPED when cancelled, and otherwise in UNAVAILABLE/BACKEND_MISSING or FAILED/START_FAILED, as the failure was |
| Controller.RuntimeController.SettleDisposed | platforms/android/edge-service/src/main/java/actor/starintel/edge/service/RuntimeController.java:90-97 | the session is given up exactly after a clean close; the end is STOPPED, FAILED/RUNTIME_EXITED or FAILED/STOP_FAILED |
| Lifecycle.StepInv | platforms/android/edge-service/src/main/java/actor/starintel/edge/service/EclLifecycle.java:21-57 | every open and close keeps the accounting of port calls |
| Lifecycle.PortDiscipline | platforms/android/edge-service/src/main/java/actor/starintel/edge/service/EclLifecycle.java:21-57 | over every sequence of calls: the port is started at most once, and every open that fails after that calls managed stop and native stop once each, even if the first throws |
| Lifecycle.CloseMeansStopped | platforms/android/edge-service/src/main/java/actor/starintel/edge/service/EclLifecycle.java:42-48 | Session.close returns normally only after native stop has returned normally, once |
| Lifecycle.SessionWasReady | platforms/android/edge-service/src/main/java/actor/starintel/edge/service/EclLifecycle.java:21-41 | in every reachable state with a session the port has answered version, start and readiness well, in this order |
| Lifecycle.EclSession.CloseSession | platforms/android/edge-service/src/main/java/actor/starintel/edge/service/EclLifecycle.java:42-48 | native stop is called after managed stop in every case; stopped exactly when native stop returned, normal exactly when besides managed stop was confirmed |
| Lifecycle.EclLifecycle.OpenSession | platforms/android/edge-service/src/main/java/actor/starintel/edge/service/EclLifecycle.java:21-57 | opened exactly when no boot was attempted, the port answers version, start and readiness well, and nothing interferes; unavailable exactly when the library is missing; a boot counts as attempted from the start call on, and its failure ends in both stops |
| PhaseDag.RequireUnique | schemas/starintel-0.10.1/operation_semantics.py:9-18 | returns the set of ids exactly when none is empty and none comes twice; the exception names the first that is wrong |
| PhaseDag.RequireRefs | schemas/starintel-0.10.1/operation_semantics.py:21-24 | returns exactly when every reference is known |
| PhaseDag.CheckReferences | schemas/starintel-0.10.1/operation_semantics.py:28-32 | returns exactly when all references are known and no phase names itself; the exception names an unknown one or a self dependency |
| PhaseDag.Search.Visit | schemas/starintel-0.10.1/operation_semantics.py:37-46 | a normal return completes the phase and all it depends on in topological order and expands none twice; an exception means a cycle; the ids not yet met decrease |
| PhaseDag.TopologicalIsAcyclic | schemas/starintel-0.10.1/operation_semantics.py:34-49 | phases in a topological order have no dependency cycle |
| PhaseDag.CycleThrough | schemas/starintel-0.10.1/operation_semantics.py:38-39 | meeting a phase that is being visited closes a cycle |
| PhaseDag.KnownIsClosed | schemas/starintel-0.10.1/operation_semantics.py:28-32 | the dictionary is closed under dependencies exactly when all references are known |
| PhaseDag.VisitAll | schemas/starintel-0.10.1/operation_semantics.py:48-49 | a normal return leaves a topological order of all phases, each once |
| PhaseDag.AssertPhaseDag | schemas/starintel-0.10.1/operation_semantics.py:27-49 | given unique ids, returns exactly when all references are known and the dependencies have no cycle, and the order of completion is topological |
| PhaseDag.CheckPhases | schemas/starintel-0.10.1/operation_semantics.py:66-81 | the phase checks together: accepted exactly for some phases with unique ids, known references and no cycle |
| PhaseDag.OrderableIsAccepted | schemas/starintel-0.10.1/operation_semantics.py:27-49 | phases that can be ordered are accepted |
| NumberForm.ExponentInteger | tests/interop/test_documents.py:49-56 | the reader in chunks of 500 digits yields what plain decimal reading yields |
| NumberForm.NumberConcat | tests/interop/test_documents.py:54-55 | appending digits multiplies by the power of ten of their number |
| NumberForm.NormalizedNumber | tests/interop/test_documents.py:58-71 | the method computes the form of the specification, on every token it can read |
| NumberForm.TokenIsCut | tests/interop/test_documents.py:61-66 | a token of section 6 of RFC 8259 is cut into its sign, its digits and its power of ten |
| NumberForm.FormKeepsValue | tests/interop/test_documents.py:58-71 | the form of a token has no superfluous zeros and denotes the number of the token |
| NumberForm.SpellingIsUnique | tests/interop/test_documents.py:67-70 | without leading zeros a number has one spelling |
| NumberForm.FormsOfEqualValues | tests/interop/test_documents.py:58-71 | two such forms of one value are equal |
| NumberForm.FormDecidesValue | tests/interop/test_documents.py:58-71 | two tokens get the same form exactly when they denote the same number, whatever their exponents |
| NumberForm.ZeroHasOneForm | tests/interop/test_documents.py:68 | every zero, signed or with any exponent, gets one form, and nothing else does |

## Left out

- ECL, Lisp evaluation, JNI environment calls and the JVM: the dispatcher is any function of the calls so far, a pinned string or a created one is a parameter.
- The floating-point environment, signal masks, SIGPIPE handling, parent-death signals and the checks of pipes and descriptors before the boot: one parameter says whether the set-up went well.
- File system tests and path building of the adapter's start: their outcomes are parameters; lengths of the scratch strings are arbitrary.
- Shifts and masks of the codec: they are written as division, remainder and addition on disjoint bits.
- A null text pointer of `parse_envelope`: the adapter tests it before the call; a null request of the adapter is modelled.
- Real time: a deadline is an event that comes at any moment; the bounds on timeouts and the argument checks of `deadline` are not part of the model.
- `awaitRetirement` and its wait loop: what it may report is the flag that `Guarantees.RetirementIsTrue` is about.
- The launch of the process itself, its environment and paths, the draining of its error stream and the closing of its streams after exit.
- Destruction attempts of the reaper: the child may exit at any moment anyway, with any code.
- OwnedProcess.OwnedEclProcess.Request: states one call that no other thread disturbs; the interleavings are the matter of `Protocol`, which is tied to this class through the functions on its fields, not by a refinement of threads.
- Progress.CallCanMove: scheduling is not modelled, so that a thread can move does not say when it moves.
- Observers and log messages; the controller's observer is taken not to throw, and the backend to throw only what is caught.
- Tokens and sessions are numbered in the order in which they are made; thread interruption in the controller's worker is not modelled.
- EINTR forever: a pipe's script of interruptions is finite, so that the transfer loops end.
- The readiness requests of the port and the judgement of the three responses, which belong to foreign code.
- Identifiers of phases are taken as already stripped; the recursion limit of Python is not modelled; the other checks of `validate_operation_semantics` are simple look-ups.
- The JSON reader that hands number tokens to `normalized_number`; tokens outside the grammar never reach it.
- Android services, notifications, activities, assets, installers, schema generators and generated types: platform plumbing with little logic to get wrong.
