# Verified model of a JSON-RPC server library

This project models the parts of a C++ network library in which several functions, or several
threads, have to agree, and proves what they promise each other.

- **JSON codec.** `ReaderSpec` says what the recursive-descent parser computes on every text; `Reader`
  is the parser as it runs over a mutable cursor (`ReadStream`). `Printer` prints a value by plain
  recursion; `Writers` has the two event-driven writers and the traversal that drives them.
  `RoundTrip` proves that the parser undoes the printer, `TripLimits` exactly when, with `Weights`, which
  counts the bytes that a parse consumes; `Spacing` that it reads every spelling of a value, whatever
  whitespace stands between the tokens, `Scalars` which numbers and strings it accepts, and `Faults` what
  it reports for a break in the structure;
  `Tokens` that the two layouts differ in whitespace between tokens only and `Layouts` where that
  whitespace is, `Unicode` that escapes become UTF-8, and `ReaderLimits` what the parser lets through.
  `Continued` and `Octets` hold the shared text and number lemmas, `JsonValue` the value tree.
- **Reference counts.** `ValueHeap` models the shared cells behind the values, `ValueCycles` what
  counting never frees and which assignments read what they have just deleted.
- **Buffer and framing.** `Buffers` is the growable, compacting byte buffer; `Framing` is about cutting
  messages out of a stream for any judgement of headers, and `Messages` joins it to the JSON codec on
  both ends.
- **Reactor.** `EventLoops` is the task queue with its wakeups, `ConnectionSpec` and `TcpConnections`
  the connection with partial writes and delayed half-close, `TimerQueues` the timers behind one
  descriptor. Threads are step relations over program counters; the methods of the classes
  `EventLoop` and `TcpConnection` are imperative and proved to be runs of those steps.
- **RPC.** `RpcClient` is the client's table of pending calls, `RpcReplies` what responses and batches of
  them do to it, `RpcSession` a client, a server that answers on any thread and the connection of
  `ConnectionSpec` between them, `Batch` the collector of a batch reply, again a step relation with the
  code of the loop as one of its runs.
- **Logging.** `LogLines` is the tagged binary record of a log statement.

System calls appear as parameters: what a read delivered, how much a write took, what a clock showed.
The asserts of the source are preconditions where they bind the caller, and proof obligations where
the code itself must meet them.

Some promises hold only under a condition. The condition is proved to be exact: `SurvivesIffPlainKeys`,
`SeparatorAcceptedIff`, `ChunkingInvisibleIff`, `ClientCutsRightIff`, `ClientReadsIffAlone`,
`NoLostWakeupIff`, `FinCompleteIff`, `AllFreedIff`, `DoneIff`, `AssignOwnElementIff`, `DueInTimeIff`,
`CancelSparesBatchIff`, `CompletedReachesCallbackIff`, `ReturnReachesCallbackIff`, `ReplyIsEmptyIff`,
`AcceptedIff`, `BlamedIff`, `VisitsArgumentsIff`, `FramedIsTaken`, `UnterminatedStringIsNull`,
`EscapeIsUtf8IffNoLoneSurrogate`, and for a pass of timers the contract of `HandleRead`. Behaviour that differs from what the documentation
or a comment in the source suggests is kept as the code has it: the reader accepts any byte for a comma
in an array and an unterminated string as null; the bug that a comment in the server's deframer tells of
is still in the client's, which takes two responses that arrive together for one; an error response has
no id, so the client can never match it to its call, and it half-closes the connection, so calls still
being executed are never answered; a batch of notifications gets an empty array for an answer; the timer
descriptor is never set closer than 100 microseconds.

`dafny verify dfyconfig.toml` checks the project.

## Model

| member | source | states |
|---|---|---|
| RoundTrip.DocumentReadsBack | JsonServer/Reader.h:64-79 | for every well-formed double-free value with plain keys, at any depth and in either layout, parsing its printed text with any whitespace around it gives PARSE_OK, exactly that value, and the end of the text |
| RoundTrip.ValueReadsBack | JsonServer/Reader.h:392-403 | the same inside any larger text: the value is read exactly and the cursor stops right after it, whatever follows |
| RoundTrip.ArrayReadsBack | JsonServer/Reader.h:312-341 | an array comes back with the same items in the same order |
| RoundTrip.ObjectReadsBack | JsonServer/Reader.h:343-390 | an object comes back with the same members, although each goes through an insertion into the map |
| RoundTrip.MembersReadBack | JsonServer/Reader.h:353-388 | the member loop, started after any smaller members, ends with all members and none else |
| RoundTrip.StringReadsBack | JsonServer/Reader.h:258-310 | every byte string, escaped by the writer, scans back to itself and the scan stops after the closing quote |
| RoundTrip.EscapeByteReadsBack | JsonServer/FastWriter.h:60-80 | one escaped byte, in whichever of the three forms, scans back to that byte |
| RoundTrip.NumberReadsBack | JsonServer/Reader.h:128-221 | every int32 and int64, printed with its suffix, reads back as that number of that width, whatever follows |
| RoundTrip.IntegerReadsBack | JsonServer/Reader.h:130-140 | the scan finds exactly the printed numeral and strtol gives the number, sign included |
| Octets.NumeralOfDigits | JsonServer/FastWriter.h:35-47 | the decimal numeral of n denotes n, and starts with 0 only for 0 |
| Octets.DigitAt | JsonServer/FastWriter.h:35-47 | digit i from the right of the numeral of n is n / 10^i modulo 10, and there are no digits beyond |
| JsonValue.InsertAscending | JsonServer/Value.h:372-385 | emplacing an absent key keeps the keys strictly ascending |
| JsonValue.InsertKeeps | JsonServer/Value.h:372-385 | emplacing adds exactly the new member |
| JsonValue.LessIff | JsonServer/Value.h:326-329 | the key order is lexicographic: at the first place where the keys part the lesser one ends or has the smaller byte |
| JsonValue.LessTransitive | JsonServer/Value.h:326-329 | key order is transitive; with the two lemmas beside it a strict total order, as std::map needs |
| JsonValue.LessTotal | JsonServer/Value.h:326-329 | two different keys are ordered one way or the other |
| Spacing.SpellingReads | JsonServer/Reader.h:64-102 | every spelling of a value is read as that value, to the end of the text: its tokens, with any run of the bytes 0x20, 0x09, 0x0A and 0x0D before the first and behind each, and doubles in any form of the number grammar |
| Spacing.ValueSpaced | JsonServer/Reader.h:392-403 | the same for a value in the middle of a stream of tokens and gaps: the cursor stops right behind its last token |
| Spacing.ItemsSpaced | JsonServer/Reader.h:320-340 | the same for the items of an array, from the first on |
| Spacing.MembersSpaced | JsonServer/Reader.h:353-388 | the same for the members of an object, with gaps around the colon too |
| Spacing.DoubleReads | JsonServer/Reader.h:128-193 | an integer part with a fraction, an exponent or both, in front of whitespace or the end of an item, is read as the double that its text spells |
| Scalars.NumberAcceptedOnly | JsonServer/Reader.h:128-221 | whatever number the reader accepts is a double of the grammar or an integer part with its suffix, and the value is the number that the integer part denotes |
| Scalars.IntegerReads | JsonServer/Reader.h:160-221 | any integer part with a suffix is read as the number it denotes, or reported too big exactly beyond 64 bits, or for i32 beyond 32 |
| Scalars.BareInteger | JsonServer/Reader.h:128-221 | an integer without a suffix is an invalid value, and beyond 64 bits too big |
| Scalars.NoValueStarts | JsonServer/Reader.h:392-403 | a byte that starts no value, or a minus without a digit, is an invalid value |
| Scalars.LiteralReads | JsonServer/Reader.h:104-126 | null, true and false must be there to the last byte, or a value was expected |
| Scalars.StringReads | JsonServer/Reader.h:258-310 | every spelling of a string, from bytes as they are, the eight short escapes, units and surrogate pairs in either hex case, is read as the bytes that its pieces stand for |
| Scalars.StringFault | JsonServer/Reader.h:258-310 | a string that breaks off after any escaped text gives null and the error of the break: a NUL, a control byte, an unknown escape, bad hexadecimal digits, or a high surrogate without a low one |
| Scalars.HexDigitsAre | JsonServer/Reader.h:223-234 | hexadecimal digits in either case and their values |
| Faults.RootFault | JsonServer/Reader.h:64-79 | a token behind the first value is reported and the output value stays as it was |
| Faults.KeyFault | JsonServer/Reader.h:353-358 | after the opening brace or a comma, whatever members came before, anything but a quote is a missing key; the members before are in the output |
| Faults.ColonFault | JsonServer/Reader.h:361-364 | behind a key anything but a colon is a missing colon |
| Faults.MemberValueFault | JsonServer/Reader.h:367-370 | behind the colon a byte that starts no value is an invalid value |
| Faults.MemberFault | JsonServer/Reader.h:372-388 | a second member with the same key trips the assert of addMember; behind a new member anything but a comma or the closing brace is reported, with that member in the output |
| Faults.ItemFault | JsonServer/Reader.h:320-340 | after the opening bracket or a comma a byte that starts no value is an invalid value, with the items before in the output |
| ReaderLimits.KeySurvivesIffPlain | JsonServer/FastWriter.h:119-127 | a key written raw is read back as itself exactly when it holds no quote, backslash or control byte, whatever follows it |
| TripLimits.SurvivesIffPlainKeys | JsonServer/Reader.h:64-79 | a well-formed double-free value of any shape and depth, in either layout and with any whitespace around, comes back from its printed text exactly when all its keys are plain |
| TripLimits.ReturnPays | JsonServer/Reader.h:64-79 | a text that parses without an error has at least as many bytes other than whitespace as the compact text of the value it gave, and strictly more if a key of that value is not plain; or the value is null |
| Weights.ValuePays | JsonServer/Reader.h:392-403 | the same for what any successful parse of a value consumes |
| Weights.KeyCharsWeigh | JsonServer/Reader.h:258-310 | a scanned string has consumed at least the bytes of its text, and strictly more if it went through an escape |
| Weights.CoreWeighs | JsonServer/FastWriter.h:30-151 | the printed text of a value, in either layout, has exactly the weight of the value |
| ReaderLimits.ObjectSurvivesIffPlain | JsonServer/FastWriter.h:119-127 | inside any larger text too: an object with one member, of any readable value, survives exactly when its key is plain |
| ReaderLimits.LaggingScan | JsonServer/Reader.h:258-310 | once an escape inside a raw key was decoded, no continuation of the scan can return the key |
| TripLimits.SeparatorAcceptedIff | JsonServer/Reader.h:312-341 | any number of readable items in brackets with one byte between each two parse as the array of all of them exactly when none of these bytes is whitespace or the closing bracket: the error for a missing comma is overwritten |
| ReaderLimits.AnySeparatorIsAccepted | JsonServer/Reader.h:320-340 | with bytes that are not whitespace the parse ends without an error at the end of the text, unless a closing bracket cuts the array short |
| ReaderLimits.UnterminatedStringIsNull | JsonServer/Reader.h:258-310 | a text that starts with a quote parses as null, with PARSE_OK and to its end, exactly when plain bytes and complete escapes follow and no bare quote |
| ReaderLimits.EscapeLengthIs | JsonServer/Reader.h:277-305 | the escapes that the reader accepts are b, f, n, r, t, slash, quote and backslash, a unit that is no high surrogate, and a surrogate pair; it consumes exactly their bytes |
| ReaderSpec.ParseValue | JsonServer/Reader.h:392-403 | on every text and position the reader terminates, never moves the cursor back or past the end, and consumes something when it succeeds |
| ReaderSpec.ArrayLoop | JsonServer/Reader.h:320-340 | the same for the loop of parseArray, including the path that records an error and goes on |
| ReaderSpec.ObjectLoop | JsonServer/Reader.h:353-388 | the same for the loop of parseObject, including the failed assert on a duplicate key |
| ReaderSpec.ParseChars | JsonServer/Reader.h:258-310 | a scan succeeds with text only at a closing quote, keeps what it has read, and without one succeeds only at the end of the text |
| ReaderSpec.ParseHexBound | JsonServer/Reader.h:223-234 | four hexadecimal digits give a code below 0x10000 |
| ReaderSpec.SkipWs | JsonServer/Reader.h:92-102 | skips bytes 0x20, 0x09, 0x0D and 0x0A only, and stops at the first byte that is none of these four |
| ReadStream.StringReadStream.Next | JsonServer/ReadStream.h:124-132 | returns the byte at the cursor and moves on, or NUL without moving at the end |
| ReadStream.StringReadStream.Expect | JsonServer/ReadStream.h:134-138 | moves over a byte that is the expected one; every call in the reader meets that |
| Reader.Read | JsonServer/Reader.h:64-79 | the imperative parser computes the specification on every path: error code, output value and cursor |
| Reader.ReadValue | JsonServer/Reader.h:392-403 | the same for parseValue |
| Reader.ReadArray | JsonServer/Reader.h:312-341 | the same for parseArray, with its loop |
| Reader.ReadMembers | JsonServer/Reader.h:343-390 | the same for the loop of parseObject |
| Reader.ReadString | JsonServer/Reader.h:258-310 | the same for parseString, with its byte loop |
| Reader.ReadNumber | JsonServer/Reader.h:128-221 | the same for parseNumber, with its suffixes and the range checks of integers |
| Reader.ReadHex4 | JsonServer/Reader.h:223-234 | the same for parseHex4 |
| Reader.ReadLiteral | JsonServer/Reader.h:104-126 | the same for parseLiteral, which stops at the first wrong byte |
| Unicode.EscapedTextDecodes | JsonServer/Reader.h:277-296 | any sequence of Unicode scalar values, escaped as one or two \u units in either hex case, parses to bytes that a decoder of section 3 of RFC 3629 maps back to exactly that sequence |
| Unicode.PairsCoverSupplementaryPlanes | JsonServer/Reader.h:284-294 | surrogate pairs stand for the codes 0x10000..0x10FFFF, each code for exactly one pair |
| Unicode.DecodeOneOfEncoded | JsonServer/Reader.h:236-256 | the reference decoder undoes encodeUtf8 exactly on the scalar values |
| Unicode.EscapeIsUtf8IffNoLoneSurrogate | JsonServer/Reader.h:277-296 | an accepted escape yields UTF-8 exactly when its first unit is not a low surrogate, which the reader does not reject |
| Writers.WriteFast | JsonServer/Value.h:444-485 | the event-driven compact writer appends exactly the text of the recursive printer, brings the level stack back with one value counted, and trips no assert |
| Writers.WriteItems | JsonServer/Value.h:467-471 | the loop over an array writes the items with commas between them and counts each |
| Writers.WriteMembers | JsonServer/Value.h:474-479 | the loop over an object writes key, colon and value of each member and counts two per member |
| Writers.FastWriter.Prefix | JsonServer/FastWriter.h:129-151 | writes the separator that the innermost level calls for and counts one more value there |
| Writers.FastWriter.String | JsonServer/FastWriter.h:56-83 | appends the quoted text with every byte escaped as the printer says |
| Writers.FastWriter.Key | JsonServer/FastWriter.h:119-127 | appends the quoted key unescaped |
| Writers.FastWriter.End | JsonServer/FastWriter.h:93-117 | closes the innermost level, which has the right kind of bracket |
| Writers.WriteStyled | JsonServer/Value.h:444-485 | the same for the indenting writer, with the indented text; the depth is the number of open brackets |
| Writers.StyleWriter.KeepIndent | JsonServer/StyleWriter.h:116-131 | writes a newline and one indent per level, and nothing at depth 0 |
| Tokens.SameTokens | JsonServer/StyleWriter.h:25-133 | a lexer cuts the indented text of a double-free plain-key value into the same tokens, in the same order, as its compact text |
| Tokens.TokensOfText | JsonServer/StyleWriter.h:25-133 | in either layout those tokens are the brackets, commas, colons, strings and scalars of the value |
| Tokens.QuotedLexes | JsonServer/StyleWriter.h:60-65 | a string is one token, with every byte of it and none more |
| Tokens.CoreLexes | JsonServer/Value.h:444-485 | the text of a value at any depth adds exactly the tokens of the value to those before it |
| Layouts.TextIsLaid | JsonServer/StyleWriter.h:25-133 | the text of any value under either writer is laid out from its tokens alone: a line ends behind an opening bracket and behind a scalar, and starts at a closing bracket, at the first key of an object and at the comma in front of any other key; nothing else separates tokens |
| Layouts.CompactIsTokens | JsonServer/FastWriter.h:129-151 | the compact text is the tokens of the value and nothing else |
| Layouts.ScalarTokens | JsonServer/FastWriter.h:21-83 | the token of each scalar, byte by byte |
| Layouts.EscapesAre | JsonServer/FastWriter.h:60-80 | which bytes of a string are escaped, and how |
| Printer.PadIs | JsonServer/StyleWriter.h:116-131 | at depth d > 0 a line break and d indents: 1 + d * \|indent\| bytes, the first a line feed and byte 1 + i byte i modulo \|indent\| of the indent; nothing at depth 0 or in the compact layout |
| ValueHeap.EveryRunCounts | JsonServer/Value.h:86-174 | after every run of constructions, copies, moves, insertions, destructions and harmless assignments and sets, each cell counts exactly the live Values that point at it, and is deleted exactly when there is none |
| ValueHeap.HarmlessIsDone | JsonServer/Value.h:115-148 | an assignment or a set whose target and source lie outside some closed set of cells around the target's old value touches nothing that its destructor call deleted |
| ValueHeap.ReleaseWithin | JsonServer/Value.h:150-174 | a cascade of destructors changes no cell outside a closed set that holds all it starts from |
| ValueHeap.OperationCounts | JsonServer/Value.h:86-174 | one operation of any kind that does not read or write a deleted cell keeps that |
| ValueHeap.ReleaseCounts | JsonServer/Value.h:150-174 | a cascade of destructors keeps every count right and never decrements a count that is not positive |
| ValueHeap.Copies | JsonServer/Value.h:86-105 | a copy increments a count that is positive, as the assert demands, and stays exact |
| ValueHeap.ReleaseLeaves | JsonServer/Value.h:150-174 | destruction moves no Value: a cell keeps its items or is deleted |
| ValueHeap.AssignOwnElementIff | JsonServer/Value.h:115-137 | v = v[k] is safe exactly when the array of v is shared; otherwise the source dies before it is read |
| ValueHeap.AssignHolds | JsonServer/Value.h:115-137 | after a copy assignment that touches nothing deleted, target and source hold what the source held, and every other Value that lives on holds what it did |
| ValueHeap.MoveAssignHolds | JsonServer/Value.h:139-148 | the same for a move assignment, which leaves the source null |
| ValueHeap.SetHolds | JsonServer/Value.h:253-299 | after a set the target holds a scalar or a new, empty cell, and every other Value that lives on holds what it did |
| ValueHeap.ConstructHolds | JsonServer/Value.h:86-113 | a constructor makes a variable that holds a scalar, a new cell or what its source held; a copy leaves the source, a move makes it null; nothing else changes and nothing dies |
| ValueHeap.AddHolds | JsonServer/Value.h:315-320 | an insertion makes one more item, the last, with the same three choices |
| ValueHeap.DestroyHolds | JsonServer/Value.h:150-174 | the end of a variable changes no other Value that lives on |
| ValueHeap.Memory.DestroyAll | JsonServer/Value.h:150-174 | the code of the destructor, with an explicit list of what is still to be destroyed, does that |
| ValueHeap.Memory.AssignFrom | JsonServer/Value.h:115-137 | the code of the copy assignment: destroy, then read the source, then count. It tells whether the destructor call left it no target or source; after a harmless one it never has. If it has not, target and source hold what the source held, and every other Value that lives on holds what it did |
| ValueHeap.Memory.MoveFrom | JsonServer/Value.h:139-148 | the same for the code of the move assignment, after which the source is null |
| ValueHeap.Memory.Copy | JsonServer/Value.h:86-105 | the code of the copy constructor: the new variable holds what the source holds, and nothing else changes |
| ValueHeap.Memory.Add | JsonServer/Value.h:315-320 | the code of an insertion of an lvalue: the new last item holds what the source holds, and nothing else changes |
| ValueCycles.AllFreedIff | JsonServer/Value.h:150-174 | when no variable is left, every cell is deleted exactly when no set of cells keeps itself alive |
| ValueCycles.OperationStaysAcyclic | JsonServer/Value.h:253-320 | an operation that stores no Value inside its own tree ties no such knot |
| ValueCycles.DoneIff | JsonServer/Value.h:115-148 | in an acyclic heap an assignment or a set touches nothing deleted exactly when the cells of its target and source can be reached from a variable once the target is blanked |
| ValueCycles.ProperIsHarmless | JsonServer/Value.h:115-148 | in an acyclic heap an assignment whose source is not inside its target's tree is harmless, and so is every set |
| ValueCycles.SafeRunFreesAll | JsonServer/Value.h:86-174 | a program that never assigns from inside the target's tree, nor stores a Value inside its own tree, touches nothing deleted and has freed everything when its variables are gone |
| Buffers.Buffer.Append | NetServer/Buffer.h:120-140 | the readable bytes grow by the data, through compaction or growth; the assert on the free space holds |
| Buffers.Buffer.MakeSpace | NetServer/Buffer.h:274-288 | growth to exactly the room asked for, when the free space at both ends is too small, or else compaction in place to the reserved front, loses no byte; both asserts hold |
| Buffers.CopyDown | NetServer/Buffer.h:281-283 | a forward copy to a lower, overlapping range moves exactly the bytes |
| Buffers.Buffer.Retrieve | NetServer/Buffer.h:75-82 | drops the first bytes and nothing else |
| Buffers.Buffer.RetrieveAsString | NetServer/Buffer.h:112-118 | returns the first bytes and drops them |
| Buffers.Buffer.Prepend | NetServer/Buffer.h:257-263 | puts the data in front of the readable bytes |
| Buffers.Buffer.ReadFd | NetServer/Buffer.cpp:12-34 | after a successful readv of any size both segments together append exactly what arrived |
| Buffers.Buffer.Swap | NetServer/Buffer.h:28-33 | exchanges the contents of two buffers |
| Buffers.Buffer.FindCrlf | NetServer/Buffer.h:47-51 | finds the first line end in the readable bytes, or that there is none |
| Buffers.FirstCrlfStays | NetServer/Buffer.h:47-51 | bytes that arrive later do not move the first line end |
| Buffers.DecodedOfEncoded | NetServer/Buffer.h:154-234 | a signed integer of any width survives network byte order |
| Buffers.EncodedByte | NetServer/Buffer.h:154-234 | byte i from the right has the place of 256^i; a negative number has the complement of every byte of -x - 1 |
| Buffers.Buffer.PeekInt | NetServer/Buffer.h:205-234 | an integer at the front reads as it was appended or prepended |
| Buffers.Buffer.ReadInt | NetServer/Buffer.h:177-203 | the same, and consumes exactly its bytes |
| Buffers.Buffer.AppendInt | NetServer/Buffer.h:154-175 | appends the bytes of the integer in network byte order |
| Buffers.Buffer.PrependInt | NetServer/Buffer.h:236-255 | puts them in front of the readable bytes |
| Framing.ChunkingInvisibleUntilError | RpcServer/Server/BaseServer.cpp:89-125 | for every byte stream and every way of cutting it, the bodies before the first error, the error, and without one the leftover bytes are those of the whole stream |
| Framing.ChunkingLosesNothing | RpcServer/Server/BaseServer.cpp:72-125 | whatever the cuts and errors, bodies handed out so far plus those still in the buffer are the bodies of the stream: none lost, repeated or reordered |
| Framing.ChunkingInvisibleIff | RpcServer/Server/BaseServer.cpp:72-125 | no way of cutting a stream shows, exactly when the loop on the whole stream leaves no complete frame behind |
| Framing.DeframeAppend | RpcServer/Server/BaseServer.cpp:89-125 | the loop on x then y is the loop on x, continued on its leftover unless x stopped it |
| Framing.WholeHandsOutLeast | RpcServer/Server/BaseServer.cpp:72-125 | delivery in one piece hands out a prefix of what any cut hands out |
| Framing.BytewiseLeavesNothing | RpcServer/Server/BaseServer.cpp:89-125 | delivered byte by byte, a stream leaves no complete frame in the buffer, errors or not |
| Framing.NextFrameStays | RpcServer/Server/BaseServer.cpp:92-110 | more bytes never change a decision that was taken |
| Messages.EndToEnd | RpcServer/Server/BaseServer.cpp:89-114 | for any list of readable messages below the limit, framed, concatenated and cut anywhere, the handler gets exactly those values in order and the buffer ends empty |
| Messages.FramedIsTaken | RpcServer/Server/BaseServer.cpp:95-113 | a framed message is taken as one frame exactly when its body is below the limit; otherwise it blocks the buffer, or beyond int32 loses its header only |
| Messages.HeaderReads | RpcServer/Server/BaseServer.cpp:95-102 | the reader takes a header for the length it prints, or reports a number too big for an int32 |
| Messages.LineDecides | RpcServer/Server/BaseServer.cpp:89-114 | for any first line, read as JSON: a positive int32 below the limit is the length of the body, which is waited for, handed out, or refused with the rest kept; a larger one blocks the buffer; any other line is dropped and refused with the rest kept; a failed assert keeps everything |
| Messages.NoLineWaits | RpcServer/Server/BaseServer.cpp:91-93 | bytes without a line end are kept |
| Messages.BodyReads | RpcServer/Server/BaseServer.cpp:112-114 | the body of a message reads back as the value that was sent, its line end skipped as whitespace |
| Messages.RefusalShowsChunking | RpcServer/Server/BaseServer.cpp:72-87 | a message behind a refused one is served when it comes in a delivery of its own, and waits when it comes along |
| Messages.FramedIs | RpcServer/Client/BaseClient.cpp:67-77 | the bytes of a message: the decimal length of the text plus 2, i32, line end, compact text, line end |
| Messages.SendJson | RpcServer/Client/BaseClient.cpp:67-77 | sendJson of both ends writes length, suffix, line end, compact JSON, line end, and counts the last line end |
| Messages.HandleMessage | RpcServer/Server/BaseServer.cpp:89-126 | the loop over the buffer computes the specification: bodies, leftover bytes and reason for stopping |
| Messages.ReadFrame | RpcServer/Server/BaseServer.cpp:92-110 | one look at the buffer decides as the specification does |
| Messages.OnReadable | NetServer/TcpConnection.cpp:238-254 | arrived bytes go through the buffer into handleMessage |
| Messages.ClientHandleMessage | RpcServer/Client/BaseClient.cpp:92-118 | the loop of the client, which takes the whole buffer for one body |
| Messages.ClientLineDecides | RpcServer/Client/BaseClient.cpp:92-118 | what the first line decides at the client, which takes everything behind the line for the body |
| Messages.ClientCutsRightIff | RpcServer/Client/BaseClient.cpp:112-116 | the client cuts as the server would exactly when the buffer holds no more than one complete frame |
| Messages.ClientReadsIffAlone | RpcServer/Client/BaseClient.cpp:112-126 | a response is parsed by the client, as the value sent, exactly when only whitespace arrived with it |
| EventLoops.NoLostWakeupIff | NetServer/EventLoop.cpp:41-99 | from loop() on, in every interleaving a loop about to block with a task or quit pending has its eventfd up or a thread about to write to it, exactly when the queue it started with was empty or announced |
| EventLoops.OwnTaskIsStranded | NetServer/EventLoop.cpp:77-99 | a task queued by the loop thread before loop() leaves it blocked with the task in the queue |
| EventLoops.TasksRunInOrder | NetServer/EventLoop.cpp:153-165 | in every interleaving the executed tasks, the batch and the queue are the tasks in the order queued: each runs once, first come first served |
| EventLoops.StepKeepsInv | NetServer/EventLoop.cpp:41-173 | each step of any thread keeps the order, the flags and the wakeups owed |
| EventLoops.WakeupRunsEverything | NetServer/EventLoop.cpp:41-54 | once the eventfd is up, one iteration of the loop alone runs every queued task and leaves queue and eventfd empty |
| EventLoops.AnnouncedRunsEverything | NetServer/EventLoop.cpp:41-54 | from the test of quit on, without a quit and with the eventfd up or a thread about to write to it, the loop goes on and one iteration executes every queued task |
| EventLoops.StoppedOnlyOnQuit | NetServer/EventLoop.cpp:41-61 | in every run a loop that has stopped was told to, and a quit is never taken back |
| EventLoops.TestDecides | NetServer/EventLoop.cpp:41-54 | at its test the loop goes on to epoll_wait exactly without a quit, and stops exactly with one |
| EventLoops.EventLoop.Turn | NetServer/EventLoop.cpp:41-54 | the code of one turn of the loop is a run of the step relation: with a quit it stops; otherwise the active handlers are called and then every task queued by then, in order |
| EventLoops.EventLoop.HandleRound | NetServer/EventLoop.cpp:41-54 | the handlers of one round, those of the eventfd among them, are steps of the relation |
| EventLoops.EventLoop.DoPendingTasks | NetServer/EventLoop.cpp:153-165 | is a run of the step relation; each task of the queue runs once, in order, and what they queue waits for the next round, each with a wakeup |
| EventLoops.EventLoop.RunFirst | NetServer/EventLoop.cpp:153-165 | the body of its loop: the steps of one task, from its call to its return |
| EventLoops.EventLoop.QueueInLoop | NetServer/EventLoop.cpp:77-99 | takes the two steps of the calling thread: the task goes to the end, and the eventfd is written unless the loop thread calls outside pending tasks |
| EventLoops.EventLoop.RunInLoop | NetServer/EventLoop.cpp:63-75 | runs the task at once on the loop thread, and queues it from any other; either way a run of the step relation |
| EventLoops.EventLoop.Quit | NetServer/EventLoop.cpp:56-61 | sets quit, with a wakeup from another thread: the steps of that thread |
| EventLoops.EventLoop.HandleRead | NetServer/EventLoop.cpp:167-173 | reads the eventfd down to zero, as that step says |
| ConnectionSpec.EveryRunConserves | NetServer/TcpConnection.cpp:88-281 | in every interleaving bytes sent plus bytes buffered are whole taken messages, each thread's messages run in its own order, and EPOLLOUT is on exactly while there is output, until disconnection |
| ConnectionSpec.FinAfterEverythingTaken | NetServer/TcpConnection.cpp:190-197 | when SHUT_WR has been issued, every byte of every message taken so far is with the socket |
| ConnectionSpec.NothingAfterFin | NetServer/TcpConnection.cpp:109-153 | after SHUT_WR no run takes or sends a further byte |
| ConnectionSpec.DrainingWriteShutsDown | NetServer/TcpConnection.cpp:256-281 | a half-close requested mid-write is issued by the write that drains the buffer, and by no smaller one |
| ConnectionSpec.FinCompleteIff | NetServer/TcpConnection.cpp:177-197 | when a thread calls shutdown(), every undisturbed continuation that issues SHUT_WR has taken all the bytes which that thread had waiting, exactly when none of them waits behind buffered output or behind another queued message with bytes |
| ConnectionSpec.OwnShutdownOvertakes | NetServer/TcpConnection.cpp:177-197 | a run in which a thread loses a message that it sent before its own shutdown |
| ConnectionSpec.StepKeepsInv | NetServer/TcpConnection.cpp:88-291 | each step keeps: output exactly while writing, whole messages, nothing after SHUT_WR, no half-close forgotten |
| ConnectionSpec.SendConserves | NetServer/TcpConnection.cpp:109-153 | a message is taken whole, partly written and partly buffered, or dropped whole |
| ConnectionSpec.SendReports | NetServer/TcpConnection.cpp:109-153 | a message is dropped exactly when disconnected or when a direct write breaks; a direct write sends exactly what it reports, and with buffered output nothing |
| ConnectionSpec.WriteReports | NetServer/TcpConnection.cpp:256-281 | a write of buffered output sends exactly what it reports |
| ConnectionSpec.ForceCloseCloses | NetServer/TcpConnection.cpp:199-215 | in every run after a forced close, once the loop has run the tasks before it and its own, or no such task is left in the queue, the connection is disconnected |
| ConnectionSpec.ClosesNow | NetServer/TcpConnection.cpp:209-291 | the task of a forced close, and the end of the stream from the peer, disconnect, clear EPOLLOUT and send nothing |
| ConnectionSpec.DisconnectedStays | NetServer/TcpConnection.cpp:93-281 | in every run a disconnected connection stays so, and neither sends a byte nor takes a message |
| ConnectionSpec.StepKeepsOrderOf | NetServer/TcpConnection.cpp:93-107 | each step keeps, for each thread, sent = run + waiting |
| TcpConnections.TcpConnection.SendInLoop | NetServer/TcpConnection.cpp:109-153 | the code takes that step; the assert on the empty output buffer holds |
| TcpConnections.TcpConnection.HandleWrite | NetServer/TcpConnection.cpp:256-281 | the code takes that step; both asserts hold; on a closed connection it does nothing |
| TcpConnections.TcpConnection.Send | NetServer/TcpConnection.cpp:93-107 | sends at once on the loop thread, queues from another, and does nothing unless connected |
| TcpConnections.TcpConnection.Shutdown | NetServer/TcpConnection.cpp:177-188 | moves to disconnecting, and shuts down at once or through the queue only from connected |
| TcpConnections.TcpConnection.ForceClose | NetServer/TcpConnection.cpp:199-207 | moves to disconnecting and queues the close, unless disconnected |
| TcpConnections.TcpConnection.HandleClose | NetServer/TcpConnection.cpp:283-291 | takes the step of a close by the peer: disconnects and empties the event mask, keeping the invariant |
| TcpConnections.TcpConnection.RunTask | NetServer/TcpConnection.cpp:190-215 | the code of a queued send, shutdown or forced close takes that step; a forced close leaves the connection disconnected, with an empty event mask and nothing more sent |
| TcpConnections.Channel.Update | NetServer/EPoller.cpp:50-67 | keeps the poller's registration in step with the mask; only an unregistered channel without events would trip its assert |
| TcpConnections.Channel.DisableRead | NetServer/Channel.h:50-50 | takes EPOLLIN out of the mask and leaves EPOLLPRI, so the channel stays registered |
| TcpConnections.TcpConnection.StopRead | NetServer/TcpConnection.cpp:217-223 | stops reading, if the connection reads, and changes nothing else of it |
| TcpConnections.TcpConnection.StartRead | NetServer/TcpConnection.cpp:225-231 | starts reading, in any state, and changes nothing else |
| TimerQueues.TimerQueue.HandleRead | NetServer/TimerQueue.cpp:94-116 | one pass, with callbacks that add and cancel timers, calls exactly the timers that are due, in order; a repeating one goes back one interval after now, a one-shot and a cancelled one are deleted, all others stay; a timer that a callback adds has its own delay from now and its own interval; every timer alive is in the queue once under its own time; the timerfd is set for the first. The pass is safe exactly when each cancel names a timer that is alive then and not in the rest of the batch |
| TimerQueues.TimerQueue.Fire | NetServer/TimerQueue.cpp:99-113 | one expired timer: its callback, which may add and cancel timers, then restart or delete; safe exactly when its cancels are |
| TimerQueues.TimerQueue.FireAll | NetServer/TimerQueue.cpp:99-113 | the loop over the batch, with the same exact condition over all its callbacks |
| TimerQueues.TimerQueue.RunCallback | NetServer/TimerQueue.cpp:73-106 | one callback with all its commands: the timers it adds have their delay from now and their interval, those it cancels are deleted, and it is safe exactly when its cancels are |
| TimerQueues.TimerQueue.GetExpired | NetServer/TimerQueue.cpp:118-128 | splits the set exactly at when <= now |
| TimerQueues.CutsAtNow | NetServer/TimerQueue.cpp:118-128 | the lower bound for the null address one nanosecond later cuts exactly there, and both parts stay sorted |
| TimerQueues.PassCallsOnce | NetServer/TimerQueue.cpp:94-128 | no timer is called twice in a pass, and one is called exactly when it is due, the earlier before the later and those of the same time by address |
| TimerQueues.TimerQueue.AddTimer | NetServer/TimerQueue.cpp:73-83 | the new timer is in the queue, the insertion cannot fail, and a new first entry sets the timerfd |
| TimerQueues.TimerQueue.CancelTimer | NetServer/TimerQueue.cpp:85-92 | outside a pass or in the middle of one, removes and deletes exactly the timer, and leaves the deadline early enough |
| TimerQueues.TimerQueue.CancelByAddress | NetServer/TimerQueue.cpp:85-111 | a cancel from a callback is safe exactly when the timer is alive and not in the rest of the batch, the timer being fired included; then it deletes that timer alone |
| TimerQueues.CancelSparesBatchIff | NetServer/TimerQueue.cpp:85-111 | deleting a timer leaves every timer that the pass still touches alive exactly when it is one of those waiting |
| TimerQueues.DueInTimeIff | NetServer/TimerQueue.cpp:30-52 | the timerfd is due no later than any entry exactly when the first was at least 100 microseconds away; otherwise that long after it was set |
| TimerQueues.Timer.Restart | NetServer/Timer.h:30-34 | moves the time to one interval after now |
| RpcSession.EverySession | RpcServer/Client/BaseClient.cpp:53-161 | for every order of completion, on any threads, each callback is called at most once, only for its own call, with what that procedure returned; the table is the calls executing, those whose reply waits for the loop or travels, those refused, those whose send gave up and those whose queued reply was dropped; the bytes with the client and the frames under way are exactly the bytes sent and buffered |
| RpcSession.CompletedReachesCallbackIff | RpcServer/Server/BaseServer.cpp:72-114 | in every session that has been drained, a callback was called exactly when the send of its reply ran while the connection was connected, or from the queue of the loop before SHUT_WR was issued |
| RpcSession.ReturnReachesCallbackIff | RpcServer/Server/BaseServer.cpp:72-114 | when a call returns, its callback is called in every continuation that is drained exactly when it returned on the loop thread and the server had refused nothing before: a reply that another thread queues can be overtaken by the half-close |
| RpcSession.SessionRunsConnection | NetServer/TcpConnection.cpp:93-197 | the connection of a session takes the steps of the connection model and no others |
| RpcSession.FiredIff | RpcServer/Server/BaseServer.cpp:72-114 | from any state of a session on, the callback is called exactly when the reply was taken already or is sent in time |
| RpcSession.NextBytes | RpcServer/Server/BaseServer.cpp:60-70 | the bytes that come next to the client are the frame of the first reply on its way |
| RpcClient.AnyServerKeepsInv | RpcServer/Client/BaseClient.cpp:79-161 | whatever bytes a server sends, no callback is called twice or for a foreign id, and the table is exactly the calls neither answered nor dropped |
| RpcClient.ResultReachesCallback | RpcServer/common.h:64-71 | a response built by UserDoneCallback, sent through the JSON writer and reader, calls the callback of its id with the result |
| RpcClient.ErrorsReachNoCallback | RpcServer/Server/BaseServer.cpp:47-58 | an error response of the server, which has no id, changes nothing at the client: the call stays in the table |
| RpcClient.ResponseIsAnswer | RpcServer/Client/BaseClient.cpp:171-195 | the client judges a response of the server to be the result for its id |
| RpcClient.ResponseReadable | RpcServer/common.h:64-71 | a response to a readable result is readable |
| RpcClient.HandleEachKeepsInv | RpcServer/Client/BaseClient.cpp:128-161 | a batch of responses keeps the table right, also when an exception ends it |
| RpcReplies.BatchReachesCallbacks | RpcServer/Client/BaseClient.cpp:120-161 | the body of a batch of responses to pairwise different pending calls calls, in order, the callback of each with its own payload and, for an error object, as an error; exactly these calls leave the table and nothing else changes |
| RpcReplies.SingleReachesCallback | RpcServer/Client/BaseClient.cpp:120-161 | the same for the body of one response, result or error |
| RpcReplies.RepliesCall | RpcServer/Client/BaseClient.cpp:128-161 | whatever calls a list of responses names, each pending one gets the first response to it; others are passed over |
| RpcReplies.InvalidEndsBatch | RpcServer/Client/BaseClient.cpp:79-140 | an invalid response ends its batch: those before it were heard, its own call is dropped if it names one, those behind it are not heard |
| RpcReplies.AcceptedIff | RpcServer/Client/BaseClient.cpp:171-195 | the client accepts exactly the two shapes of a response: id, version and result, or id, version and an error object |
| RpcReplies.BlamedIff | RpcServer/Client/BaseClient.cpp:171-195 | a response that is not accepted names its call exactly when it has three members, the id among them, and not the version, or an error that is no object |
| RpcReplies.BlamedCallIsDropped | RpcServer/Client/BaseClient.cpp:79-90 | such a response takes its call out of the table without calling the callback |
| RpcClient.BaseClient.SendCall | RpcServer/Client/BaseClient.cpp:53-60 | registers the callback under the next id, which goes into the message |
| RpcClient.BaseClient.HandleResponse | RpcServer/Client/BaseClient.cpp:120-140 | the code of handleResponse, with the catch block around it, handles a single response, a batch or anything else as the function does about which the lemmas of RpcReplies are |
| RpcClient.BaseClient.HandleResponseSingle | RpcServer/Client/BaseClient.cpp:142-161 | calls and erases the entry of the id, or raises the exception of the validation |
| Batch.EveryBatchRepliesOnce | RpcServer/Server/RpcServer.cpp:43-79 | in every interleaving done is called at most once, exactly when the last reference is gone, with one response per answered request and one error if one ended the loop |
| Batch.ReplyMatchesRequests | RpcServer/Server/RpcServer.cpp:114-149 | without an exception and with every request answered, the reply has one response for each element that is not a notification |
| Batch.NothingAfterReply | RpcServer/Server/RpcServer.cpp:66-70 | after the reply no callback is left that could be called, copied or dropped |
| Batch.NotificationsAnsweredEmpty | RpcServer/Server/RpcServer.cpp:114-149 | in every run, a batch without a request is replied to exactly when the loop has finished: with an empty array, or one error after a RequestException; section 6 of the JSON-RPC 2.0 Specification asks for no answer to notifications |
| Batch.ReplyIsEmptyIff | RpcServer/Server/RpcServer.cpp:114-149 | in every run without an exception and with every request answered, the reply is the empty array exactly when the batch has no request |
| Batch.StepKeepsReply | RpcServer/Server/RpcServer.cpp:51-70 | each step keeps: done called exactly when the use count is zero, with what was collected |
| Batch.StepKeepsCollected | RpcServer/Server/RpcServer.cpp:134-144 | each step keeps: responses are the answered requests, each once, and an error exactly after a RequestException |
| Batch.EveryRunIsRecorded | RpcServer/Server/RpcServer.cpp:114-149 | in every run the loop takes the elements in order and gives each request among them to its procedure; the responses are, in the order of the steps, those of the callbacks called and the error of a step that threw a RequestException; a NotifyException adds none |
| Batch.HandleRequestBatch | RpcServer/Server/RpcServer.cpp:114-149 | the code is a run of the step relation; its responses are those of exactly the requests that it reached and that were answered, with an error exactly when a RequestException ended it, and the reply goes out before it returns exactly when no procedure it reached kept its callback |
| Batch.HandleElement | RpcServer/Server/RpcServer.cpp:123-147 | the body of the loop, with the catch blocks, takes the steps of one element |
| Batch.HandleRequestSingle | RpcServer/Server/RpcServer.cpp:133-137 | the temporary callback, the copies a procedure keeps and its answer are steps of the relation |
| LogLines.VisitsArgumentsIff | LogServer/log_line.cpp:128-161 | stringify visits exactly the arguments that leave a trace, in order, and stops at the end of the used bytes, exactly when no string holds a NUL |
| LogLines.TextDecodes | LogServer/log_line.cpp:121-126 | a string comes out up to its first NUL, and its rest is taken for further arguments |
| LogLines.NulSwallowsNextTag | LogServer/log_line.cpp:121-161 | of a string with a NUL between printable texts the second text vanishes, and its terminator turns the tag of the next argument into a character that is put out |
| LogLines.FixedReadsBack | LogServer/log_line.cpp:106-112 | a number, character or literal address reads back as it was stored |
| LogLines.HeaderReadsBack | LogServer/log_line.cpp:84-99 | the six fields of the header read back as they were stored |
| LogLines.Record | LogServer/log_line.cpp:73-104 | a whole statement: header and arguments come out as they went in, with the same exact condition |
| LogLines.LogLine.ResizeIfNeed | LogServer/log_line.cpp:217-235 | room is made on the heap, at least 512 bytes and then at least twice as many, and no used byte changes |
| LogLines.LogLine.EncodeCStr | LogServer/log_line.cpp:248-257 | appends tag, text and NUL, or nothing for an empty string |
| LogLines.LogLine.EncodeRaw | LogServer/log_line.hpp:81-86 | appends the bytes within the capacity |
| LogLines.LogLine.EncodeTagged | LogServer/log_line.hpp:88-95 | makes room and appends tag and bytes |
| LogLines.LogLine.AppendAll | LogServer/log_line.cpp:163-209 | any list of arguments is appended in order, through any number of growths, and never beyond the capacity |
| LogLines.Walk | LogServer/log_line.cpp:128-161 | the pointer loop computes the specification, unknown tags and overruns included |

## Left out

- DocumentReadsBack: values with doubles are excluded, because `std::to_string` and `strtod` are foreign and lose digits; a double is carried as its literal text, and `SpellingReads` covers every literal of the number grammar.
- SurvivesIffPlainKeys: values with doubles are excluded, as for DocumentReadsBack.
- ReadNumber: a range error of `strtod` and the assert that it stops where the scan does are not modelled; integers have their range checks.
- ParseValue: the rounding and the range errors of `strtod`, and a range error of the floating-point branch of a number, are not modelled.
- EncodeUtf8: shifts and masks are written as quotients and remainders.
- WriteFast: the overflow of the value counters and of the indentation depth is not modelled.
- EveryRunCounts: copies made by several threads at once are not modelled; the destructor's recursion is a list of what is still to be destroyed, in the same order; `addMember` is two insertions, of the key and of the value; the order of members is part of `JsonValue`, not of the heap.
- ReadFd: a failed `readv` is not modelled; the source stores its result unsigned.
- PeekInt: the four widths of the source are one method with the width as a parameter.
- Deframe: whether a request handler throws depends on the body alone; a run after a failed assert of the reader is not continued.
- NoLostWakeupIff: the eventfd counter does not overflow, and an interrupted `epoll_wait` is a return without events.
- DoPendingTasks: a task is known by the tasks that it queues. The methods of `EventLoop` run without another thread stepping in between; the lemmas on runs allow any interleaving of those steps.
- Turn: one turn of the loop, with what `epoll_wait` reports as a parameter; handlers queue tasks and do nothing else. The repetition of the turns is in the step relation only.
- FinCompleteIff: says nothing of connections that the peer closes, that are closed by force, or whose writes break before SHUT_WR.
- EveryRunConserves: starts from an established connection; a close or shutdown before `connectEstablished` is not modelled, nor are the write-complete and high-water-mark callbacks, which only queue user code.
- Shutdown: the test and the exchange of the state are one step, as for `ForceClose`; a `send` of another thread may queue its message any time after its test.
- HandleRead: a callback is known by the timers that it adds and cancels; after a cancel that deletes a timer which the pass still uses, nothing is said about the rest of the pass.
- EverySession: the connection is not lost, so writes break after SHUT_WR only; replies arrive one body per delivery and are shorter than the client's limit, and the client makes fewer than 2^31 calls; procedures are opaque, and each calls its done callback at most once.
- HandleResponseSingle: the texts of the exceptions are not modelled.
- HandleRequestBatch: procedures copy and call their callback before they return, in the order copies first; steps of other threads in between are in the lemmas on runs.
- EveryBatchRepliesOnce: whether an element is a notification is given; the field checks of requests and notifications, the service table and the procedures behind it are not modelled.
- Record: the byte order of numbers is the machine's own, here written most significant byte first; formatting of the time, levels and values as text, and dangling addresses of literals, are not modelled.
- File streams, `FileWriter`, `AsyncWriter`, the log macros and time formatting.
- `Acceptor`, `Connector`, `InetAddress`, `TcpServer`, `TcpClient`, the thread pool and the latch: plumbing around the modelled parts.
- The stub generators: text substitution into C++ source.
- Texts of parse errors and of RPC errors.
