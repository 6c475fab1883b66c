# ATXP in Dafny

ATXP carries messages between a client and a server. Version 2 seals each message in an encrypted,
length-prefixed frame and numbers the frames of each direction; version 1 is a line of text with
delimiters. This project models both in Dafny and proves what their layers promise together.

| file | models | main results |
|---|---|---|
| Bytes | integers on the wire, `uint32(n)`, wrap-around of a counter | encoding and decoding are inverse and big-endian |
| EnvelopeV2 | v2.go: the message and response envelopes, `envelopeReader` | the codec is a bijection onto what it accepts; prefix-freedom; decoding writes all or nothing |
| FramesV2 | v2.go, crypto_v2.go: sealed frames, caps | exactly which caps let every emitted frame be read back; no silent truncation; one parse of every stream and of every cut of it |
| ConnV2 | v2.go: `readFrame`, `writeFrame`, the handshake and its options, over short reads and failing writes | however reads are split, the code is a function of the stream |
| LinkV2 | server_v2.go: the decisions of one connection | every trace over every byte stream, exactly, without the loop |
| HandlerTable | the handler tables of all servers | which table a lookup sees when others register in between |
| ServerV2 | server_v2.go: the server class and its loop | the code runs the loop of LinkV2 and emits exactly its responses |
| ClientV2 | client_v2.go: the client class | what one call writes, reads and counts |
| SessionV2 | both over an honest network | the stack yields what auth and handlers applied directly would, for the loops and for the classes on each other's bytes; the invariant of idle states |
| HostileV2 | both over a hostile network | dispatches and responses are authentic, in order, at most once |
| IsolationV2 | server_v2.go: many connections and registrations | connections do not affect each other, and each runs the sequential loop over its own bytes; a lookup uses the latest registration |
| FramedConnJs | atxp.js: `FramedConn` | it refines a stream cursor, for every chunking and interleaving |
| FramesJs | atxp.js: `readFrame` over `FramedConn` | promises open to exactly the frames of the stream; exactly which caps make it read as the Go reader does |
| NumberJs, ServerJs | atxp.js: the V2 server | it agrees with the Go server if and only if the numbers on the stream stay apart as doubles |
| Search, TextV1 | atxp.go: the V1 codec | exactly what any bytes decode to, which are refused and which panic; exactly when a round trip is the identity |
| ServerV1 | atxp.go, server.go: `Receive` and the V1 server | it serves a stream of messages as auth and handlers would directly; every trace exactly, without the loop; exactly when a connection panics |

How things are modelled:

- Bytes are integers below 256, Go strings their bytes, Go `int` an unbounded integer with every
  conversion to `uint32` written out (`Low32`), counters 64-bit with wrap-around (`Next`).
- A cipher is any pair of functions that meets the AEAD contract (`FramesV2.Aead`): 12-byte nonces,
  28 bytes of overhead, opening inverts sealing. `AeadExists` shows that the contract can be met.
  Randomness is an argument. Against a hostile network a frame opens only if it was sealed under the
  session key before (`HostileV2.IdealOpen`): that is the assumption that sealed frames cannot be forged.
- A connection delivers a sequence of bytes in reads of any size, then reports its end or a fault. It
  accepts writes up to a point that may never come.
- Authorization and handlers are arbitrary functions. They get the number of their call on the
  connection, so their answers may change over time. Registrations by other goroutines, or by other
  turns of the JavaScript event loop, come in batches, one before each lookup, and go through
  `RegisterHandler`.
- The two V2 endpoints are proved against the bytes of each other, as code: `ServeSession` runs the
  server class on everything that the client's calls write, `CallSession` runs the client class on the
  header and all the answers of that server. The transport takes every write while the server is open;
  after that it fails at any byte (`SessionV2.Transported`).
- A socket of Node.js is the list of events that it still has to report; each `await` lets as many of
  them happen as it takes, and any number more (`FramedConnJs.Meanwhile`).

Where the code and its documentation differ:

- docs/protocol.md and v2.go:106 ask that a sender's cap not exceed the receiver's. The reader compares
  with `uint32(maxFrameSize)`: every frame that the sender emits is read back, whatever follows it, if and
  only if the sender's cap does not exceed the receiver's cap modulo 2^32 (`FramesV2.CapRule`). At a cap
  of 2^32 on both sides every frame is refused (`FramesV2.EqualCapsCanFail`). The JavaScript reader does
  not convert its cap, so with equal caps the two readers differ from 2^32 on unless the low 32 bits of
  the cap are all set (`FramesJs.LimitsDecide`).
- docs/protocol.md:101-103 holds the Go and JavaScript sides to parity. A JavaScript number does not tell
  2^53 + 1 from 2^53, so the servers agree on a stream if and only if the numbers in it that are next in
  order differ from their predecessors as doubles (`ServerJs.ServersAgreeOnBytes`), as all numbers up to
  2^53 do (`ServerJs.SmallNumbersAgree`) and 2^53 + 1 after 2^53 does not
  (`ServerJs.ConsecutiveNumbersDisagree`). And a malformed envelope, which the Go server meets with
  silence, gets a last ERROR from the JavaScript server, exactly when the loop reaches it.
- A V1 packet can make `Deserialize` slice out of bounds (atxp.go:138, atxp.go:145) instead of returning
  `ErrInvalidFormat`, and server.go has no `recover`. The bytes of "URL", two tabs, "Auth:u::p" and a
  blank line do so (`TextV1.NoDataPanics`). A received packet does so if and only if its first two tabs
  begin the auth tag or stand one byte before it (`TextV1.PanicsExactly`), the encoding of a message if and
  only if its payload begins with "Auth:" or with a tab and that, or holds a blank line before its first
  auth tag (`TextV1.EncodingPanics`), and a connection if and only if it reaches such a packet
  (`ServerV1.PanickedExactly`).
- A stream that ends between the length of a frame and its body reports the same end of file as one that
  ends between frames (`FramesV2.CutError`).

## Model

| member | source | states |
|---|---|---|
| Bytes.Uint64Encodes | v2.go:422-429 | every 8 bytes are the encoding of the number they decode to |
| Bytes.Uint64Decodes | v2.go:204 | a 64-bit number survives the wire |
| Bytes.BigEndian | docs/protocol.md:65-77 | a 32-bit integer is the positional value of its four bytes, most significant first |
| Bytes.BigEndian64 | v2.go:422-429 | a 64-bit integer is the positional value of its eight bytes, most significant first |
| Bytes.KnownNumbers | v2.go:204 | the bytes of 1 and of 0x0102030405060708 |
| Bytes.Low32Forgets | v2.go:205 | the conversion to uint32 forgets exactly the multiples of 2^32 |
| EnvelopeV2.ParseMessageExact | v2.go:214-253 | the cursor accepts a byte string exactly when it starts with the encoding of an in-range message, and reads nothing beyond it |
| EnvelopeV2.Canonical | v2.go:189-253 | decoding accepts exactly the image of encoding; every accepted byte string re-encodes to itself |
| EnvelopeV2.RefusedExactly | v2.go:214-253 | what no in-range message encodes to is refused, with ErrInvalidEnvelope, and nothing else is |
| EnvelopeV2.RoundTrip | v2.go:189-253 | decoding after encoding is the identity if and only if the type and the field lengths fit in 32 bits, the payload is present and there is no password |
| EnvelopeV2.Carries | v2.go:189-253 | any message whose lengths fit arrives with its type modulo 2^32, its payload bytes and no password |
| EnvelopeV2.PrefixFree | v2.go:244-246 | an accepted envelope is refused with anything appended, and so is every strict prefix of one |
| EnvelopeV2.Layout | docs/protocol.md:65-77 | the offset and the positional value of every part of a message envelope |
| EnvelopeV2.ResponseLayout | docs/protocol.md:65-77 | the same of a response envelope |
| EnvelopeV2.KnownEnvelopes | v2.go:189-262 | one message and one response, byte by byte |
| EnvelopeV2.EncodedLength | v2.go:201 | a message envelope is 25 bytes longer than its fields |
| EnvelopeV2.ResponseCanonical | v2.go:257-281 | response decoding accepts exactly the image of response encoding |
| EnvelopeV2.ResponseCarries | v2.go:257-281 | a response is 13 bytes and arrives with its code modulo 2^32 |
| EnvelopeV2.KindsDisjoint | v2.go:220-223 | no byte string decodes both as a message and as a response |
| EnvelopeV2.EnvelopeReader.constructor | v2.go:218 | a new cursor has everything left to read |
| EnvelopeV2.EnvelopeReader.ReadByte | v2.go:404-411 | takes the next byte or moves nothing |
| EnvelopeV2.EnvelopeReader.ReadUint32 | v2.go:413-420 | takes the next 4 bytes or moves nothing |
| EnvelopeV2.EnvelopeReader.ReadUint64 | v2.go:422-429 | takes the next 8 bytes or moves nothing |
| EnvelopeV2.EnvelopeReader.ReadField | v2.go:433-445 | takes a length and that many bytes, never beyond the end |
| EnvelopeV2.EnvelopeReader.Done | v2.go:447-449 | holds exactly when nothing is left |
| EnvelopeV2.SerializeV2 | v2.go:189-210 | refuses nil; otherwise yields the encoding and leaves the message unchanged |
| EnvelopeV2.DeserializeV2 | v2.go:214-253 | fills the target with the decoded message or, on any error, leaves all of it unchanged |
| FramesV2.AeadExists | crypto_v2.go:85-112 | the cipher contract is consistent |
| FramesV2.FrameOutcome | v2.go:366-396 | the result for every announced frame, in the order of the checks, and what it leaves on the stream |
| FramesV2.EnvelopeOutcome | v2.go:315-339 | an admitted frame is decoded if it opens and is ErrInvalidChecksum if not |
| FramesV2.FrameLayout | docs/protocol.md:48-54 | a frame is the big-endian length 12 + plaintext + 16 and the sealed bytes, or is refused when that exceeds the cap |
| FramesV2.FrameRoundTrip | v2.go:343-390 | a written frame is read back, with what follows it untouched, if and only if its length is from 28 to the reader's cap as a uint32 |
| FramesV2.CapRule | v2.go:102-114 | every frame that a sender emits is read back, whatever follows it, if and only if the sender's cap does not exceed the receiver's cap as a uint32 |
| FramesV2.EqualCapsCanFail | v2.go:378-380 | with a cap of 2^32 the reader refuses every frame |
| FramesV2.OpenedFitsExactly | v2.go:392-396 | a sealed message within a reader's cap had exact field lengths, decodes to itself, and needs a cap of 53 |
| FramesV2.NoSilentTruncation | v2.go:343-396 | a message that writeFrame accepts is received whole by a reader whose cap is no smaller, with no bound assumed on its fields |
| FramesV2.DecodedLeavesRoom | server_v2.go:90-121 | a server that decoded any message has a cap of at least 53, so its 41-byte response is never too large |
| FramesV2.DrainWhole | v2.go:368-390 | frames followed by anything unreadable yield exactly their plaintexts, then that error |
| FramesV2.CutStream | v2.go:343-390 | a stream of frames cut at any byte yields exactly the plaintexts of the frames wholly before the cut, then the error of the cut |
| ConnV2.Conn.Read | v2.go:64-68 | a read delivers some of the next bytes |
| ConnV2.Conn.Write | v2.go:359-362 | a write delivers all of its bytes or a part and an error |
| ConnV2.AcceptedInPieces | v2.go:359-362 | writing piecewise delivers what writing at once would |
| ConnV2.ReadFull | v2.go:373-388 | however reads are split, takes exactly the next n bytes or reports how the stream ended |
| ConnV2.ReadFrame | v2.go:368-390 | the plaintext or the error is a function of the stream, and so is what is left on it |
| ConnV2.WriteFrame | v2.go:343-364 | writes the frame or nothing |
| ConnV2.ReceiveMessageFrame | v2.go:315-326 | a fresh message and its number, or none on any error |
| ConnV2.ReceiveResponseFrame | v2.go:333-339 | the response or the error as a function of the stream |
| ConnV2.NewV2 | v2.go:83-132 | an endpoint needs a password; the last option that makes sense decides, else the default; its cap admits some frame |
| ConnV2.LastCapDecides | v2.go:108-114 | the last cap of at least 28 decides, else 16 MiB |
| ConnV2.LastIterationsDecide | v2.go:85-91 | the last positive count of iterations decides, else 600000 |
| ConnV2.KnownPreamble | docs/protocol.md:31-37 | the header starts with "ATXP2" and the version 2 |
| ConnV2.ServerHandshake | v2.go:137-155 | writes the 22-byte header and derives the cipher from its salt, or fails |
| ConnV2.ClientHandshake | v2.go:159-175 | accepts exactly the headers a server writes, takes no byte beyond them, and derives the cipher of the same salt |
| LinkV2.AdmitKeepsShape | server_v2.go:89-110 | receiving, ordering and authorizing keep the shape of the trace |
| LinkV2.RouteKeepsShape | server_v2.go:112-121 | lookup, call and response keep the shape of the trace |
| LinkV2.TurnDecides | server_v2.go:89-122 | an iteration on a decoded message checks its number, then authorizes, then looks up, then calls |
| LinkV2.TurnAddsOne | server_v2.go:89-122 | a decoded message adds exactly one response; anything else adds none and closes |
| LinkV2.ServeTrace | server_v2.go:89-122 | over every byte stream: responses are numbered 1, 2, 3, ..., accepted numbers strictly increase, a replay or a refusal is the last event, and the events answer the decoded messages one by one |
| LinkV2.TraceExactly | server_v2.go:89-122 | for every byte stream, without the loop: one event per decoded message up to the first replay or refusal, each with the verdict and the code that its number, auth and the handler of its type demand |
| HandlerTable.NextBatch | server_v2.go:48-59 | a lookup sees the table after the batches before it |
| HandlerTable.LastDecides | server_v2.go:48-52 | of several registrations of a type the last decides, and other types keep their handlers |
| ServerV2.NewServerV2 | server_v2.go:34-44 | a server exists exactly when there is a password, and starts without handlers |
| ServerV2.ServerV2.RegisterHandler | server_v2.go:48-52 | changes the handler of one type |
| ServerV2.ServerV2.Interfere | server_v2.go:48-59 | registrations by others apply in order |
| ServerV2.ServerV2.HandleFrame | server_v2.go:90-121 | one iteration of the code is one iteration of the loop, and writes the response of its event |
| ServerV2.ServerV2.ServeFrames | server_v2.go:89-122 | the code's run over a stream is the loop's run, and the responses reach the wire in order up to the first failing write |
| ServerV2.ServerV2.HandleConnection | server_v2.go:76-123 | the same behind the handshake; the connection ends closed |
| ClientV2.ClientV2.Send | client_v2.go:70-91 | every call consumes a number; one that cannot be framed writes nothing and reads nothing; a rejected response leaves `recvSeq` unchanged |
| ClientV2.NewClientV2 | client_v2.go:30-40 | a client exists exactly when there is a password and a server's header was read, and its stream starts at byte 22; without a password nothing is read |
| SessionV2.RequestFrames | client_v2.go:70-80 | a call fails locally exactly when 53 bytes and its fields exceed the client's cap; otherwise the server decodes its type modulo 2^32, its data, the client's username and its filename, each in its place |
| SessionV2.ReplyArrives | server_v2.go:120-121 | a response passes any caps from 41 on and arrives with its code modulo 2^32 |
| SessionV2.ExchangeSimulates | client_v2.go:70-91 | one call over bytes keeps the session in step with the direct calls |
| SessionV2.SessionIsDirect | client_v2.go:70-91 | for any requests the outcomes are those of applying auth and handlers directly, up to the first UNAUTHORIZED; oversized calls in between leave the session usable; counters are consistent, with gaps, and neither side ever reports a replay |
| SessionV2.LoopEndsAsSession | server_v2.go:89-122 | the server's loop over all that the session wrote, and a torn frame after it, ends where the session got to call by call |
| SessionV2.CallEach | client_v2.go:70-91 | the client class, called for each request, writes, reads, counts and returns what the model of its calls does |
| SessionV2.WritesAreSession | client_v2.go:70-80 | whatever the client reads, its calls put on the wire what the session writes, and a torn frame at most |
| SessionV2.LoopMakesDirectCalls | server_v2.go:89-122 | so over those bytes the loop makes exactly the direct calls, in order, and answers them 1, 2, 3, ... |
| SessionV2.CallsHaveDirectOutcomes | client_v2.go:70-91 | a client that reads what the loop answers to its own bytes has exactly the direct outcomes |
| SessionV2.NeverFails | client_v2.go:70-80 | a transport that never fails meets the assumption on the transport |
| SessionV2.ServeSession | server_v2.go:76-123 | the server class, on everything that a client writes, sends its header and then the answers to the direct calls |
| SessionV2.CallSession | client_v2.go:30-91 | the client class, connecting and calling on that header and those answers, has the direct outcomes |
| HostileV2.OpenedIsTrue | v2.go:366-390 | whatever bytes arrive, a decoded message is one the client sealed and a decoded response, of any number, is one the server sealed |
| HostileV2.SendIsSafe | client_v2.go:70-80 | the sending half of a call keeps the invariant, sent or not |
| HostileV2.ClientReadIsSafe | client_v2.go:82-90 | the receiving half keeps it, whatever the network delivers |
| HostileV2.ServerReadIsSafe | server_v2.go:89-122 | an iteration of the server keeps it, whatever the network delivers |
| HostileV2.HostileNetworkIsSafe | server_v2.go:89-122 | in every run: messages decided on are authentic, accepted ones strictly increase, and the responses the client takes are genuine, strictly increasing, and end at `recvSeq` |
| HostileV2.DispatchedInOrderAtMostOnce | server_v2.go:94-99 | two dispatches belong to two calls of the client, in the order of the calls |
| HostileV2.OldResponseIsReplay | client_v2.go:86-90 | in every run a response numbered no higher than one already taken is ErrReplay and changes nothing |
| IsolationV2.Isolated | server_v2.go:61-73 | for every interleaving of connections, each with its own bytes, a connection is as if it were alone with the registrations |
| IsolationV2.TableIsLatest | server_v2.go:48-52 | the table holds the latest registration of each type |
| IsolationV2.LookupUsesLatest | server_v2.go:54-59 | a dispatch calls the handler most recently registered before its lookup; without one the answer is ERROR |
| IsolationV2.ConnectionsRunTheLoop | server_v2.go:76-123 | in every interleaving every connection is on the way of the sequential loop over its own bytes, under the tables that its lookups saw |
| IsolationV2.ConnectionServes | server_v2.go:76-123 | so its events are the first that the loop over its bytes has, and all of them once it is closed |
| FramedConnJs.FramedConn.PumpWaiters | atxp.js:787-805 | settles waiters from the front; ends with none, or with the first needing more than the buffer on an unfinished stream |
| FramedConnJs.FramedConn.OnData | atxp.js:778-781 | appends a chunk, then pumps |
| FramedConnJs.FramedConn.OnEnd | atxp.js:782 | marks the end, then pumps |
| FramedConnJs.FramedConn.OnClose | atxp.js:783 | marks the end, then pumps |
| FramedConnJs.FramedConn.OnError | atxp.js:784 | records the error, then pumps |
| FramedConnJs.FramedConn.ReadExactly | atxp.js:811-816 | queues a read, then pumps |
| FramedConnJs.EveryRunConserves | atxp.js:769-816 | for every interleaving of events and reads: promises settle in the order of the calls, each resolved one with exactly its size, and the bytes handed out followed by the buffer are the bytes received |
| FramedConnJs.EveryRunRejectsWith | atxp.js:794-800 | for every history a promise is rejected with the last error that the socket has reported, else with the end of the stream |
| FramedConnJs.MoreData | atxp.js:778-781 | reads that succeeded are not affected by later data |
| FramedConnJs.RefinesCursor | atxp.js:769-816 | for every chunking of a stream and every interleaving of reads, promises are settled as by a cursor over the whole stream; none is rejected before the stream is finished, and none waits after it |
| FramedConnJs.Meanwhile | atxp.js:769-785 | socket events that come while nothing is awaited change nothing of the bytes still to be read |
| FramedConnJs.AwaitExactly | atxp.js:807-816 | whatever the chunks and their times, an awaited read takes the next n bytes of the stream, or is rejected and takes none |
| FramesJs.ReadFrame | atxp.js:833-840 | the awaited frame is a function of the bytes still to be read, and so are the bytes after it |
| FramesJs.PromisesDrain | atxp.js:769-840 | on every orderly finished stream, reads that ask for 4, n1, 4, n2, ... as readFrame does resolve to exactly the frames of the stream |
| FramesJs.DrainsAlike | atxp.js:833-840 | with caps that admit the same lengths, readFrame opens the plaintexts that the Go reader opens |
| FramesJs.LimitsDecide | atxp.js:836-837 | the two readers open the same plaintexts of every stream if and only if the Go cap as a uint32 is the JavaScript cap, or the largest length if that is smaller |
| NumberJs.NumberMonotone | atxp.js:683-688 | rounding a 64-bit number to a double keeps order |
| NumberJs.NumberExact | atxp.js:683-688 | numbers up to 2^53 are exact |
| NumberJs.NumberCollapses | atxp.js:683-688 | 2^53 + 1 becomes 2^53 |
| NumberJs.NumberIsNearest | atxp.js:683-688 | the rounded number is a double, no double is nearer, and on a tie it is the even one |
| ServerJs.ServerJs.Interfere | atxp.js:991-993 | registrations by other turns of the event loop apply in order |
| ServerJs.HandlerSees | atxp.js:737-745 | a handler gets the type, the payload, the username and, unless it is empty, the filename of the envelope |
| ServerJs.ServerJs.HandlePlaintext | atxp.js:1038-1075 | one iteration of the code is one iteration of the loop, and its event has the message, verdict and code that the fields of the envelope, auth and the handler of its type demand |
| ServerJs.JsTurnMalformed | atxp.js:1038-1045 | a plaintext that does not decode gets code 1 and ends the loop |
| ServerJs.ServerJs.HandleConnection | atxp.js:1026-1080 | the code over a socket, under any chunking, any write failures and any registrations meanwhile, has the trace of its loop over the frames of the stream |
| ServerJs.TurnsAlike | atxp.js:1038-1076 | on a decoded message both servers do the same unless the Go server accepts a number that JavaScript cannot tell from the previous one |
| ServerJs.RunsAgree | atxp.js:1030-1076 | from corresponding states the servers agree on a list of plaintexts if and only if its numbers that are next in order stay apart as doubles |
| ServerJs.ServersAgree | atxp.js:1016-1080 | the same from the start, where a malformed envelope adds one last ERROR exactly when the loop, still open, reaches it |
| ServerJs.SmallNumbersAgree | atxp.js:687 | the servers agree on every list of plaintexts numbered up to 2^53 |
| ServerJs.ConsecutiveNumbersDisagree | atxp.js:687 | on two messages numbered 2^53 and 2^53 + 1 the servers disagree, whatever the handlers |
| ServerJs.FailedWriteCuts | atxp.js:1043-1076 | a failing write cuts the run after the response it belongs to and changes nothing before it |
| ServerJs.ServeIsGoRun | server_v2.go:89-122 | the Go loop over bytes decides as its loop over the plaintexts it opens |
| ServerJs.ServersAgreeOnBytes | atxp.js:1016-1080 | both servers on the same bytes, with caps that admit the same lengths, agree if and only if the numbers on the stream stay apart, as they do up to 2^53 |
| Search.FoundWhereWritten | atxp.go:127-143 | a delimiter is first found where it was written exactly when nothing before it contains or straddles it |
| Search.AcrossGap | atxp.go:127-143 | a delimiter does not straddle a gap that shares no byte with it |
| Search.SplitAfter | atxp.go:146 | the first part of a split is the field before a separator exactly when the field neither contains nor straddles it |
| TextV1.Serialize | atxp.go:92-119 | refuses nil; otherwise encodes and makes an absent payload an empty one |
| TextV1.Deserialize | atxp.go:122-160 | fills the target, or leaves it unchanged on a refusal or an index out of bounds |
| TextV1.UnambiguousMeans | atxp.go:127-146 | no delimiter inside a field or across its end, exactly when every search finds the delimiter that was written |
| TextV1.DecodesFields | atxp.go:122-160 | an unambiguous packet is read field by field |
| TextV1.RoundTrip | atxp.go:92-160 | for every message and every target, decoding the encoding yields the message if and only if it is unambiguous and representable |
| TextV1.PanicsExactly | atxp.go:122-160 | on whatever Receive hands over, Deserialize slices out of bounds if and only if the first two tabs begin the auth tag or stand one byte before it |
| TextV1.NoDataPanics | atxp.go:138 | a URL packet without data between its delimiters does |
| TextV1.EncodingPanics | atxp.go:92-160 | for every message and target, what Serialize made does so if and only if the payload begins with "Auth:" or a tab and "Auth:", or has a blank line before its first auth tag |
| TextV1.BlankLinePanics | atxp.go:145 | a payload with a blank line in it does |
| TextV1.RefusedExactly | atxp.go:122-150 | for every packet and target: refused exactly when it is empty, lacks one of the delimiters that come before any disorder, or has no "::" between its tag and its blank line |
| TextV1.FilledExactly | atxp.go:122-160 | for every packet and target, encoding or not: what is accepted, and from where each field is read |
| TextV1.KnownTypes | atxp.go:64-89 | the texts of the types, and -1 for any other text |
| TextV1.KnownPacket | docs/protocol.md:12-16 | the bytes of one document packet |
| ServerV1.Receive | atxp.go:198-218 | reading byte by byte takes exactly the stream up to its first blank line, or all of it at its end |
| ServerV1.TakesPacket | atxp.go:198-218 | a packet ends with the first blank line of the stream; without one it is the whole stream at its end, or an error |
| ServerV1.CutsPacket | atxp.go:198-218 | a packet is cut off exactly at its end, whatever follows, if and only if no blank line comes before its end |
| ServerV1.ServerV1.HandlePacket | server.go:62-95 | one iteration of the code is one iteration of the loop, and writes the response of its event |
| ServerV1.ServerV1.HandleConnection | server.go:58-97 | the code's run over a stream is that of its loop, under any registrations meanwhile, and its responses reach the wire in order up to the first failing write |
| ServerV1.RunExactly | server.go:61-96 | for every byte stream, without the loop: one event per packet up to the first malformed, refused or panicking one, each with the verdict and the code that its contents, auth and the handler of its type demand |
| ServerV1.PanickedExactly | server.go:61-75 | a connection panics if and only if some packet of its stream slips and every packet before it can be read and is authorized |
| ServerV1.StreamIsDirect | server.go:61-96 | on any stream of sendable messages the server sees the list in order, answers each message once, and stops at the first refusal |

## Left out

- AES-GCM, PBKDF2 and random generation: only the contract of a cipher, and a key that is a function of password, salt and iterations.
- Sockets, TLS, listeners, dialling, deadlines: a connection is a sequence of bytes with short reads, an end or a fault, and writes that may start to fail. Reads of zero bytes without an error do not occur.
- The response text of V1 (`SendResponse`, `ReceiveResponse`): any function from codes to bytes, since the text is made and read by Sprintf and Sscanf.
- The JavaScript V1 functions: their framing depends on how the socket chunks the data.
- ServerJs.ServerJs.HandleConnection: starts behind the handshake, and gives the responses that are attempted as numbers and codes, not as sealed bytes.
- ServerJs.ServersAgreeOnBytes: names are compared as UTF-8 bytes, so it speaks of valid UTF-8 only; the conversion of invalid bytes to replacement characters is not modelled.
- The JavaScript client: its `_send` takes the same steps as the Go client.
- IsolationV2.Isolated: a connection's bytes are fixed when it is accepted, and its responses are events, not bytes; handlers and auth are functions of the call and share no state across connections.
- HostileV2.HostileNetworkIsSafe: covers one connection; a replayed connection with the same salt is outside it, as docs/security.md says.
- SessionV2.SessionIsDirect: a call after the server has closed fails with an end of file or a write error as the transport decides; other transport errors on an honest network are not modelled.
- The registry of custom types (mt_v2.go), `AuthData`, the validating handlers and the type declarations: single lookups or prefix checks.
- JavaScript exceptions thrown by handlers.
