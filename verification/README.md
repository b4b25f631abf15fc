# Verified models of the test programs

This project models four programs of the repository and proves what they promise.

* **The keep-alive HTTP mock server** (`httpd_mock`). `EngineSpec` is the engine as a state machine on
  values: accept, read, 50 ms tick and error events over clients, a timer queue and a connection count.
  `TimerList`, `HttpBuffers` and `HttpHandlers` are its objects and buffers, updated in place as the
  handlers do, down to the `prev`/`next`/`owner` pointers and the bytes of the response buffer; every
  handler is proved to do exactly what `EngineSpec.Step` says, also when a write fails and the error
  callback destroys the client under the handler. `HttpFormat` holds the bytes that are written and an
  independent reader of HTTP/1.1 messages (sections 4, 5, 6.3 and 7.1 of RFC 9112). `DecisionProofs` says
  what the engine decides in the units of its configuration; `ClientProofs`, `RunProofs`, `ArrivalProofs`
  and `ScheduleProofs` hold the theorems over every run. `ServiceArgs` is the argument check.
* **The generated protocol buffer class `hello`** (`pto_stat/test_protobuf`). `Wire` is the wire format with
  unknown fields and nested groups, `HelloCodec` the message as a value with the laws of parsing, merging
  and serializing, `Hello` the class with has-bits, the shared empty string and both writers.
* **The character device** (`kernel/ioctl`): `CharDevice`.
* **The pacing loop of the log benchmark** (`log`): `Pacing`.

`dafny verify dfyconfig.toml` verifies the whole project.

## Assumptions about the unseen libraries

* `fevbuff_write` either sends the bytes it is given, or has run the error callback of the client before it
  returns a negative number. `fevbuff_read` makes all unconsumed bytes available, and changes nothing when
  it fails; `fevbuff_pop` drops a prefix. The event library delivers reads and errors only for clients that
  are registered, and the system hands out no descriptor that is in use.
* `rand()` is any natural number, handed in with the event; so are the clock values and the outcome of
  each write. `get_diff_time` is the difference of two clock values in microseconds.
* `snprintf` returns the length of the text, or -1 where that is no int; a C int is the type `Int32`, so
  every length and offset that the handlers keep in one is proved to be one.
* `free` is modelled by a method that demands an object not freed yet, and after which nothing is known of
  its fields. A snapshot of the fields as `free` left them shows every later write: `Dead` says that there
  was none.
* The name of the standard empty string is one shared object; reading and writing the wire follows the
  Protocol Buffers Encoding specification, sections "Base 128 Varints", "Message Structure" and
  "Last One Wins".
* A read of the protocol buffer library that fails may leave any bytes in the name's string and any unknown
  fields behind the others (`HelloCodec.Debris`); a varint that fails is not stored. `ExpectTag` and
  `ExpectAtEnd` are hints that may always answer no.

## Where the code does less than one might expect

* The range check bounds neither the response size nor the chunk sizes by what the buffer and an int can
  hold. `HttpBuffers.ResponsesFit` is the condition on the configuration, `HttpBuffers.ResponsesFitExactly`
  proves that it is exact, and `HttpBuffers.RangeCheckIsNotEnough` gives checked configurations that miss
  each part. The handlers require it.
* A content response is sent whole, with the Content-Length of its body, exactly while its size is at most
  `INT_MAX - 202` (`HttpFormat.ContentReadBack`): above, its length is no int and `snprintf` fails.
* The closing newline of a request stays buffered. The next request is recognised at its own end if and
  only if its second byte is no newline (`ScheduleProofs.NextRequest`).
* `http_read` answers one request for each arrival. Of several requests that arrive together only the first
  is answered; the others stay in the buffer until more bytes come (`ArrivalProofs.OthersWait`, with the
  input in `ArrivalProofs.PipelinedRequestsWait`). Every request is answered at its own arrival if and only
  if no arrival completes two (`ArrivalProofs.NoneWaitsIff`).
* The idle timeout counts from the last request, so a slow chunked response costs the connection, and a
  client that never completes a request is never evicted (`ScheduleProofs.SlowResponseCostsTheConnection`,
  `ScheduleProofs.SilentClientsStay`).
* A plain device write adds no terminator: behind a shorter one the end of the old message still shows
  (`CharDevice.WriteShows`).
* Setting an empty device message leaves the old one, and one of 80 bytes or more has no terminator
  (`CharDevice.SetMessageShows`).
* Parse after serialize is the identity exactly when no unknown field has a recognised tag and cleared
  has-bits mean defaults (`HelloCodec.RoundTrip`).
* A pointer from `mutable_name` that is written while the has-bit is clear leaves a name behind it.
  `HelloCodec.CanonicalUnlessStale` says in exactly which reachable states a cleared has-bit means the
  default, and `HelloCodec.CopyIsExact` when a copy equals its source.
* `ByteSize` is the number of bytes written exactly while that number is an int (`Hello.Message.ByteSize`).

## Model

| member | source | states |
|---|---|---|
| HttpHandlers.Serve | httpd_mock/http_handlers.c:587-637 | for every configuration whose responses fit and every sequence of events, running the handlers on the objects leaves valid pointer structures whose value is the specification's run, with its invariant; every client made is in use or has been freed, once, and nothing freed is in use or has been written to since |
| HttpHandlers.Deliver | httpd_mock/http_handlers.c:110-213 | through every event, what was freed before keeps every field, and the number of clients in use and freed grows exactly by those registered |
| HttpHandlers.ServedClientReadsBack | httpd_mock/http_handlers.c:286-387 | what a client object was sent reads back as `response_complete` bodies and an open chunked response iff `chunk_block_num > 0` |
| RunProofs.EveryStreamReadsBack | httpd_mock/http_handlers.c:286-532 | in every reachable state of a configuration whose responses fit, an independent HTTP reader recovers each completed body, of an allowed kind and size and in its planned chunks, and stops exactly at the open chunked response |
| RunProofs.RunKeepsAndProjects | httpd_mock/http_handlers.c:389-566 | over every run the connection count is the number of live clients, the queue holds each client with a request exactly once, each client obeys the keep-alive rules, and each client's state depends only on its own events and the ticks |
| RunProofs.AcceptMakesClients | httpd_mock/http_handlers.c:541-566 | a connection becomes a client iff its descriptor is free and below the limit and it got a buffer; it starts empty and active now |
| RunProofs.ErrorsTakeClients | httpd_mock/http_handlers.c:534-539 | an error takes its client out of table, queue and count and nothing else |
| RunProofs.DescriptorsStayBelow | httpd_mock/http_handlers.c:546-549 | over every run all clients have descriptors below the limit |
| RunProofs.EventsStayApart | httpd_mock/http_handlers.c:442-566 | an event of one client leaves all others as they are |
| RunProofs.RunSnoc | httpd_mock/http_handlers.c:632-634 | a run takes its events one after the other |
| RunProofs.StepProjects | httpd_mock/http_handlers.c:389-566 | one event changes each client as if it were alone |
| RunProofs.StepKeeps | httpd_mock/http_handlers.c:389-566 | every event keeps the invariant of the whole service |
| RunProofs.TickIsFilterMap | httpd_mock/http_handlers.c:389-440 | the tick handles each queued client exactly once, keeps the order of survivors, removes the destroyed, and touches nobody else |
| RunProofs.DrainIsFilterMap | httpd_mock/http_handlers.c:394-434 | moving nodes from one list to the other while handling them is an ordered filter-map of the list |
| ScheduleProofs.ChunkedSchedule | httpd_mock/http_handlers.c:400-524 | from the accepted request on, among any other traffic: nothing before 1000 microseconds for each millisecond of the latency, or the first block at once without one; then one planned chunk per expired tick, and complete at exactly the emitter call `TicksNeeded` gives |
| ScheduleProofs.TicksNeededIs | httpd_mock/http_handlers.c:330-383 | that number is the size over the chunk size, rounded up, plus one; 1 for an empty response; never more than twice the block count |
| ScheduleProofs.PlanLength | httpd_mock/http_handlers.c:336-343 | a response below b bytes has one chunk per byte, a longer one between b and 2b - 1 chunks |
| ScheduleProofs.ContentSchedule | httpd_mock/http_handlers.c:404-503 | from the accepted request on: nothing before 1000 microseconds for each millisecond of the latency, then one response of an allowed size at the first expired tick; at once without a latency |
| ScheduleProofs.CallsGrow | httpd_mock/http_handlers.c:400-430 | a response is sent on once more at each tick that comes 1000 microseconds per millisecond of its latency, or more, behind the request, and at no other |
| DecisionProofs.TickSendsWhenDue | httpd_mock/http_handlers.c:400-420 | a tick sends on an owed response iff the clock has moved 1000 microseconds per millisecond of the interval since the request; before, it changes nothing |
| DecisionProofs.TickDropsWhenIdle | httpd_mock/http_handlers.c:421-429 | a tick drops a client that is owed nothing iff interval and idle timeout have both passed, in microseconds; otherwise it changes nothing |
| DecisionProofs.ElapsedReaches | httpd_mock/http_handlers.c:401-404 | the truncated millisecond difference reaches a limit exactly at that number of microseconds, limits of 0 and below included |
| DecisionProofs.MixedByRatio | httpd_mock/http_handlers.c:248-264 | after an accepted read in mixed mode, exactly `chunk_ratio` of the draws 0 to 99 give a chunked response, the draw counts modulo 100, and a larger ratio only adds draws |
| DecisionProofs.ReadChooses | httpd_mock/http_handlers.c:490-506 | the kind of the response that a read leaves, for every configuration and draw |
| DecisionProofs.KindsAreSent | httpd_mock/http_handlers.c:248-264 | a configuration sends a kind iff some draw chooses it |
| DecisionProofs.LatencyIsDrawn | httpd_mock/http_handlers.c:496-509 | a response waits between the bounds of its own kind, and every wait between them is drawn |
| DecisionProofs.InRangeIs | httpd_mock/http_handlers.c:234-240 | what is drawn is the draw modulo the size of the range, counted from its lower end |
| DecisionProofs.EverySizeIsSent | httpd_mock/http_handlers.c:294-297 | a content response has a size of its range, and every size is sent by some draw |
| DecisionProofs.EverySizeIsPlanned | httpd_mock/http_handlers.c:336-338 | a chunked response is planned at a size of its range, and every size by some draw |
| DecisionProofs.ChunkSizeIs | httpd_mock/http_handlers.c:339-343 | the chunk size is the largest one that the blocks do not exceed; 1 for fewer bytes than blocks |
| ScheduleProofs.ReadStarts | httpd_mock/http_handlers.c:477-531 | an accepted read leaves the client that owes the response drawn, with exactly one call of its sender made if there is no latency |
| ScheduleProofs.AskedOwes | httpd_mock/http_handlers.c:477-512 | that client keeps the invariant, owes one response, chunked by the draw's last two digits against the ratio, with the plan drawn, and waits between the configured bounds of its kind, or for the idle timeout behind a response started at once |
| ScheduleProofs.EmitterWritesOneMessage | httpd_mock/http_handlers.c:315-387 | for every size and block count, repeated emitter calls write one message that decodes to `size` bytes 'F' with nothing left over, and is incomplete before the last call |
| ScheduleProofs.PendingIsFrozen | httpd_mock/http_handlers.c:477-516 | while a response is owed no event changes its kind, plan, timer or request count, and output only grows |
| ScheduleProofs.IdleCostsTheConnection | httpd_mock/http_handlers.c:404-430 | a client that is owed nothing loses its connection under ticks iff one comes at least 1000 times the larger of its timer's interval and the idle timeout, in microseconds, after its last request |
| ScheduleProofs.SlowResponseCostsTheConnection | httpd_mock/http_handlers.c:400-430 | the idle time counts from the request: a chunked response that is complete only past the timeout costs the connection at the next tick |
| ScheduleProofs.SilentClientsStay | httpd_mock/http_handlers.c:394-430 | a client that never completes a request has no timer and is never evicted, however late the ticks |
| ArrivalProofs.SplitDoesNotMatter | httpd_mock/http_handlers.c:456-531 | whatever the split into arrivals and the events in between, the next arrival recognises the first request not recognised yet, at the position a scan of all bytes gives; so a request is recognised at the arrival that completes it iff no earlier one is recognised by that same arrival |
| ArrivalProofs.RequestEndsAtEmptyLine | httpd_mock/http_handlers.c:460-470 | a request of non-empty lines ended by CRLF is recognised exactly when its empty line is complete, whatever follows (RFC 9112 section 3) |
| ArrivalProofs.RunRecognises | httpd_mock/http_handlers.c:389-532 | over any run the client survives, the requests recognised are the first ones of the bytes that arrived, and their number depends only on the bytes and on where the arrivals end |
| ArrivalProofs.RecognisedAndWaiting | httpd_mock/http_handlers.c:456-531 | in every state the requests of all bytes received are those recognised followed by those still complete in the buffer |
| ArrivalProofs.OneAtATime | httpd_mock/http_handlers.c:456-531 | an arrival recognises exactly one request if any is there, the first not recognised yet; with a response owed it costs the connection |
| ArrivalProofs.OthersWait | httpd_mock/http_handlers.c:528-531 | all other requests of the arrival stay complete in the buffer |
| ArrivalProofs.OthersKeep | httpd_mock/http_handlers.c:389-440 | no event but an arrival recognises a request or changes the buffer |
| ArrivalProofs.NoneWaitsIff | httpd_mock/http_handlers.c:456-531 | every request is recognised at the arrival that completes it iff no arrival completes two |
| ArrivalProofs.PipelinedRequestsWait | httpd_mock/http_handlers.c:456-531 | of four lines in one arrival only the first request is recognised |
| ArrivalProofs.SeparateRequestsDoNot | httpd_mock/http_handlers.c:456-531 | in two arrivals a second one is |
| ArrivalProofs.WaitsForTheRest | httpd_mock/http_handlers.c:461-475 | arrivals that complete no request change nothing of the client but its buffer and the saved offset |
| ArrivalProofs.NextRequest | httpd_mock/http_handlers.c:456-531 | the request behind an answered one is recognised iff its end has arrived or its second byte is a newline, and at its own end iff its second byte is no newline |
| ArrivalProofs.ScanBehindNewline | httpd_mock/http_handlers.c:462-470 | a scan from the newline left buffered stops at it iff the second byte behind it is a newline, and otherwise finds what a scan of the bytes behind it finds |
| ArrivalProofs.ClosingNewlineCanOpenAMatch | httpd_mock/http_handlers.c:463-464 | behind the newline left buffered any byte and a newline already make another request |
| ClientProofs.ResumedScan | httpd_mock/http_handlers.c:458-470 | a scan from an offset with no match below it finds what a scan from 0 finds |
| ClientProofs.TakeKeeps | httpd_mock/http_handlers.c:528-531 | popping `offset + 2` bytes re-establishes the scan invariant over all bytes ever received |
| ClientProofs.ReadKeeps | httpd_mock/http_handlers.c:442-532 | a read keeps the scan, protocol, plan and stream invariants of the client |
| ClientProofs.TimerKeeps | httpd_mock/http_handlers.c:400-430 | a tick keeps them |
| ClientProofs.SendKeeps | httpd_mock/http_handlers.c:286-387 | sending keeps the counters, the plan split into sent and left chunks, and the byte stream well-formed |
| HttpFormat.StreamReadBack | httpd_mock/http_handlers.c:19-47 | any completed responses followed by an unfinished chunked one read back as their bodies, stopping at the unfinished one |
| HttpFormat.ChunksReadBack | httpd_mock/http_handlers.c:315-327 | every chunk sequence, sizes in lower-case hexadecimal, decodes to its number of 'F' bytes |
| HttpFormat.OpenChunksAreIncomplete | httpd_mock/http_handlers.c:362-366 | without the last chunk no prefix of whole chunks is a complete body |
| HttpFormat.ContentReadBack | httpd_mock/http_handlers.c:294-305 | the length of a content response is an int, and it reads back with the Content-Length of its body, iff its size is at most INT_MAX - 202; above, snprintf fails |
| HttpFormat.ContentTextReadBack | httpd_mock/http_handlers.c:299-302 | the text itself frames its body iff size + 4 is an int; past that the printed length has a sign and nothing is framed |
| HttpFormat.HeadersAre | httpd_mock/http_handlers.c:19-47 | both header sections line by line as a reader gets them, and the end of a chunked response |
| HttpFormat.ContentBodyIs | httpd_mock/http_handlers.c:277-283 | the body of a content response is its size in bytes 'F' and two line ends |
| HttpFormat.SizeLineIsLowerCase | httpd_mock/http_handlers.c:318 | the first line of a chunk is its size in lower-case hexadecimal without a leading zero |
| HttpFormat.ContentLengthIsInt | httpd_mock/http_handlers.c:299-302 | what snprintf returns for a content response of any int size |
| HttpBuffers.ContentNeverTruncated | httpd_mock/http_handlers.c:224-229 | the whole content response fits the buffer for every allowed size |
| HttpBuffers.BuffSizeIs | httpd_mock/http_handlers.c:224 | the buffer has 204 bytes more than the largest response size |
| HttpBuffers.EmitterStaysInBuffer | httpd_mock/http_handlers.c:354-383 | when the responses of a configuration fit, every emitter call of a pending response stays within the buffer and within the int offset |
| HttpBuffers.ChunksFitExactly | httpd_mock/http_handlers.c:315-387 | the chunk condition holds iff the first block of every configured size stays within the buffer and its offsets within an int |
| HttpBuffers.ResponsesFitExactly | httpd_mock/http_handlers.c:286-387 | the condition on the configuration holds iff, whatever is drawn, the first write of the response fits the buffer and its length an int |
| HttpBuffers.RangeCheckIsNotEnough | httpd_mock/main.c:193-227 | the range check accepts a content size whose response is longer than an int, a chunk size that overruns the buffer, and one that the buffer holds but an int does not |
| TimerList.TimerMgr.Push | httpd_mock/http_handlers.c:157-172 | appends an unlinked node keeping all links, owners and the count; an owned node changes nothing |
| TimerList.TimerMgr.Pop | httpd_mock/http_handlers.c:174-193 | removes and unlinks the first node |
| TimerList.TimerMgr.Delete | httpd_mock/http_handlers.c:127-155 | removes the node at any index of its owner's list, or takes an unlinked one, and frees it once, with no write to it afterwards |
| TimerList.TimerMgr.Unlink | httpd_mock/http_handlers.c:136-151 | head, tail and middle removal keep both link directions |
| HttpHandlers.ClientMgr.constructor | httpd_mock/http_handlers.c:215-232 | a new manager is the empty board with buffers of the computed sizes |
| HttpHandlers.ClientMgr.HttpOnTimer | httpd_mock/http_handlers.c:389-440 | does on the two linked lists exactly what the specification's tick does; the backup list is empty afterwards |
| HttpHandlers.ClientMgr.HandleNode | httpd_mock/http_handlers.c:400-430 | one round: the client is gone without trace, or has its new value and its node is at the end of the backup list |
| HttpHandlers.ClientMgr.SwapLists | httpd_mock/http_handlers.c:436-439 | the drained list becomes the empty backup |
| HttpHandlers.ClientMgr.HttpRead | httpd_mock/http_handlers.c:442-532 | does on the objects exactly what the specification's read does |
| HttpHandlers.ClientMgr.FindRequest | httpd_mock/http_handlers.c:458-470 | finds the first request end from the offset, or returns the offset to save |
| HttpHandlers.ClientMgr.ReadClient | httpd_mock/http_handlers.c:445-531 | a read as a change of one client: destroyed, waiting, or answered with its timer set and its request popped |
| HttpHandlers.ClientMgr.ChooseResponse | httpd_mock/http_handlers.c:477-512 | counts the request, chooses the kind by the ratio and plans the response, and returns a latency between the bounds of its kind |
| HttpHandlers.ClientMgr.StartResponse | httpd_mock/http_handlers.c:487-522 | starts a response without latency at once, with the interval the timer gets |
| HttpHandlers.ClientMgr.SetTimer | httpd_mock/http_handlers.c:109-125 | a client keeps its node with a new timeout, or gets one at the end of the queue |
| HttpHandlers.ClientMgr.PopRequest | httpd_mock/http_handlers.c:528-531 | drops the request up to its closing newline and resets the scan |
| HttpHandlers.ClientMgr.HttpAccept | httpd_mock/http_handlers.c:541-566 | refuses past the limit, closes without a buffer, otherwise registers a fresh client and counts it |
| HttpHandlers.ClientMgr.HttpErrorEvent | httpd_mock/http_handlers.c:534-539 | an error event removes the client from table, queue and count and frees it |
| HttpHandlers.ClientMgr.DestroyClient | httpd_mock/http_handlers.c:204-213 | deletes the node from its true owner or unlinked, frees client and node, each once and with no write afterwards, frees nothing else, and leaves every other client's value unchanged |
| HttpHandlers.Client.Free | httpd_mock/http_handlers.c:210 | only a client that has not been freed may be freed; its fields are unknown and fixed from then on |
| TimerList.TimerNode.Free | httpd_mock/http_handlers.c:154 | the same for a timer node |
| HttpHandlers.ClientMgr.FevbuffWrite | httpd_mock/http_handlers.c:414-418 | success appends the bytes to the client's stream; failure means the client is already gone |
| HttpHandlers.ClientMgr.SendHttpResponse | httpd_mock/http_handlers.c:286-306 | sends one whole content response and counts it, or the client is gone |
| HttpHandlers.ClientMgr.FillContent | httpd_mock/http_handlers.c:294-302 | the buffer holds the header with the length and the body read from the body buffer, and its length is returned as an int; -1 past INT_MAX - 202 |
| HttpHandlers.ClientMgr.SendHttpChunkedResponse | httpd_mock/http_handlers.c:348-387 | sends the next piece and moves the client's chunk status past it, or the client is gone |
| HttpHandlers.ClientMgr.FillChunk | httpd_mock/http_handlers.c:354-383 | the buffer holds the header once, then a data chunk or the last chunk, with every offset an int |
| HttpHandlers.ClientMgr.AdvanceChunk | httpd_mock/http_handlers.c:368-383 | counts the block and the bytes left, or completes the response and resets |
| HttpHandlers.CreateResponse | httpd_mock/http_handlers.c:272-284 | fills the body buffer, or leaves it when the size does not fit |
| HttpHandlers.CreateChunkResponse | httpd_mock/http_handlers.c:315-327 | writes one chunk in place behind what is there, with every offset an int |
| HttpHandlers.Snprintf | httpd_mock/http_handlers.c:299-302 | a text that fits is stored whole with its NUL, a longer one truncated; the length is returned if it is an int, otherwise -1 |
| ServiceArgs.Args.constructor | httpd_mock/main.c:35-74 | the built-in defaults |
| ServiceArgs.Args.CheckServiceArgs | httpd_mock/main.c:150-232 | succeeds iff every range holds, each one spelled out, and clamps the descriptor limit and the workers |
| ServiceArgs.DefaultsFit | httpd_mock/main.c:49-56 | with the defaults everything that is sent fits |
| HelloCodec.ConcatenationMerges | pto_stat/test_protobuf/test.hello.pb.cc:220-272 | parsing a concatenation is parsing the first input and merging in the parse of the second, if the first parses to its true end; a second input that fails has merged in as much as it reads |
| HelloCodec.LastMessageWins | pto_stat/test_protobuf/test.hello.pb.cc:220-272 | of two serialized messages one behind the other, the second one's id and name win wherever its bits are set, and unknown fields are appended |
| HelloCodec.LastIdWins | pto_stat/test_protobuf/test.hello.pb.cc:228-233 | an id that is read replaces the one there was, by the low 32 bits of the varint |
| HelloCodec.WrittenIdWins | pto_stat/test_protobuf/test.hello.pb.cc:228-233 | the same for every id as it is written, negative ones included |
| HelloCodec.LastNameWins | pto_stat/test_protobuf/test.hello.pb.cc:242-250 | a name that is read replaces the one there was |
| HelloCodec.OtherFieldsAreKept | pto_stat/test_protobuf/test.hello.pb.cc:258-266 | any other field is kept behind those there were |
| HelloCodec.EndGroupStops | pto_stat/test_protobuf/test.hello.pb.cc:260-263 | an end-group tag ends the parse in success and nothing behind it is read |
| HelloCodec.BrokenFields | pto_stat/test_protobuf/test.hello.pb.cc:230-248 | a name that cannot be read fails the parse with its has-bit set, an id leaves the message untouched |
| HelloCodec.ParseMerges | pto_stat/test_protobuf/test.hello.pb.cc:362-373 | parsing into a message is merging the parse into it, also as far as a failing parse gets |
| HelloCodec.ParseContinues | pto_stat/test_protobuf/test.hello.pb.cc:224-270 | behind an input parsed to its end, parsing goes on with what follows |
| HelloCodec.ZeroTagHidesTheRest | pto_stat/test_protobuf/test.hello.pb.cc:224 | a zero byte ends the parse, so the condition on the first input is needed |
| HelloCodec.RoundTrip | pto_stat/test_protobuf/test.hello.pb.cc:220-294 | parse after serialize is the identity iff cleared bits mean defaults and no unknown field has a recognised tag; negative ids included |
| HelloCodec.ReachableRoundTrip | pto_stat/test_protobuf/test.hello.pb.cc:207-401 | over every history with names of int length, parse after serialize is the identity iff no stale name is left, and the size computed is right |
| HelloCodec.ParsedMessagesRoundTrip | pto_stat/test_protobuf/test.hello.pb.cc:220-348 | every message that came from the wire round-trips, with the size computed |
| HelloCodec.ParseKeeps | pto_stat/test_protobuf/test.hello.pb.cc:220-272 | parsing never stores a recognised tag as unknown, and keeps all widths; also when it fails, if what the failing read leaves is no recognised tag and of its width |
| HelloCodec.ParseOnlySets | pto_stat/test_protobuf/test.hello.pb.cc:220-272 | no parse clears a has-bit or stores a value behind a cleared one, whether it succeeds or fails and whatever a failing read leaves |
| HelloCodec.NameComesNext | pto_stat/test_protobuf/test.hello.pb.cc:237 | a byte 18 is what a round of the tag loop would read as the tag of a name, on any message |
| HelloCodec.ByteSizeIsLength | pto_stat/test_protobuf/test.hello.pb.cc:320-343 | the size computed without writing is the number of bytes written |
| HelloCodec.WrittenInOrder | pto_stat/test_protobuf/test.hello.pb.cc:274-294 | reading back a serialized message gives the id, then the name, then the unknown fields in their order |
| HelloCodec.OnTheWire | pto_stat/test_protobuf/test.hello.pb.cc:276-288 | the id is the varint of its 64-bit two's complement, ten bytes if negative; the name its length and its bytes |
| HelloCodec.ClearedIsFresh | pto_stat/test_protobuf/test.hello.pb.cc:207-218 | the guarded clear yields a fresh message iff the fields behind guards that did not fire hold defaults |
| HelloCodec.CanonicalUnlessStale | pto_stat/test_protobuf/test.hello.pb.h:316-384 | over every history, pointer writes included: cleared bits mean defaults iff no stale name is left, that is, none written behind a cleared bit and not set or cleared since |
| HelloCodec.EveryHistoryIsCanonical | pto_stat/test_protobuf/test.hello.pb.h:316-384 | in every state reached by constructor, accessors, clear, merge, copy, swap and parse, failed parses included, a cleared bit means the default and Clear leaves a fresh message, if no kept pointer is written while the bit is clear |
| HelloCodec.CopyIsExact | pto_stat/test_protobuf/test.hello.pb.cc:381-385 | over every history, a copy has its source's value iff the source has a name or the same bytes stand behind both cleared bits; always without stale names |
| HelloCodec.CopyYields | pto_stat/test_protobuf/test.hello.pb.cc:381-385 | clearing and merging yields the source's value exactly when each field that the source's bits hide has it already |
| HelloCodec.MergeLaws | pto_stat/test_protobuf/test.hello.pb.cc:362-373 | merging is associative with the empty message as unit, and reading one field is a merge |
| Hello.Message.MergePartialFromCodedStream | pto_stat/test_protobuf/test.hello.pb.cc:220-272 | with the jump to the name and the early return, on every input and whatever the hints answer: same success and same message as the plain tag loop, also when it fails; and the same rest of the input and the same word on its end when it succeeds |
| Hello.Message.ParseName | pto_stat/test_protobuf/test.hello.pb.cc:245-250 | sets the has-bit and the name through the owned string |
| Hello.Message.SerializeWithCachedSizes | pto_stat/test_protobuf/test.hello.pb.cc:274-294 | appends exactly the serialized bytes to the stream |
| Hello.Message.SerializeWithCachedSizesToArray | pto_stat/test_protobuf/test.hello.pb.cc:296-318 | puts exactly the same bytes in place in the array and touches nothing around them |
| Hello.VarintToArray | pto_stat/test_protobuf/test.hello.pb.cc:300 | the seven-bit loop writes the varint in place |
| Hello.UnknownsToArray | pto_stat/test_protobuf/test.hello.pb.cc:313-316 | unknown fields, nested groups included, are written in place in order |
| Hello.Message.ByteSize | pto_stat/test_protobuf/test.hello.pb.cc:320-348 | computes in ints and caches the number of bytes that serializing yields, exactly iff that is an int |
| Hello.Message.MergeFrom | pto_stat/test_protobuf/test.hello.pb.cc:362-373 | has-bits are united, id and name of the source win where its bits are set, unknown fields are appended; each field spelled out |
| Hello.Message.CopyFrom | pto_stat/test_protobuf/test.hello.pb.cc:381-385 | the copy is the cleared target merged with the source, exactly the source's value if cleared bits mean defaults, and keeps its own cached size; copying onto itself changes nothing |
| Hello.Message.Clear | pto_stat/test_protobuf/test.hello.pb.cc:207-218 | clears what the has-bits guard, each field spelled out |
| Hello.Message.Swap | pto_stat/test_protobuf/test.hello.pb.cc:393-401 | exchanges values, owned strings and cached sizes |
| Hello.Message.IsInitialized | pto_stat/test_protobuf/test.hello.pb.cc:387-391 | both required fields are set |
| Hello.Message.constructor | pto_stat/test_protobuf/test.hello.pb.cc:154-173 | a new message is empty and owns no string |
| Hello.Message.SetId | pto_stat/test_protobuf/test.hello.pb.h:323-326 | sets value and bit, nothing else |
| Hello.Message.SetName | pto_stat/test_protobuf/test.hello.pb.h:347-353 | sets value and bit, never writing the shared empty string |
| Hello.Message.ClearName | pto_stat/test_protobuf/test.hello.pb.h:338-343 | clears bit and value, keeping the string |
| Hello.Message.MutableName | pto_stat/test_protobuf/test.hello.pb.h:368-374 | hands out the owned string, allocating it once |
| Hello.Message.ReleaseName | pto_stat/test_protobuf/test.hello.pb.h:375-384 | hands the string over; the message owns none afterwards |
| Hello.WriteString | pto_stat/test_protobuf/test.hello.pb.h:368-374 | a write through a pointer reaches the message iff the string still is its own, and cleared bits then mean defaults iff the name's bit is set or nothing was written (and the id is in order) |
| Hello.Replay | pto_stat/test_protobuf/test.hello.pb.h:307-384 | the class taken through any history with its own methods holds exactly the history's value, and owns a string exactly when the history says |
| Hello.StaleNamePointer | pto_stat/test_protobuf/test.hello.pb.h:338-374 | a pointer kept across clear_name leaves a name behind a cleared bit iff bytes are written through it |
| Wire.FieldRoundTrip | pto_stat/test_protobuf/test.hello.pb.cc:264-293 | every unknown field, groups included, reads back as it was written |
| Wire.SkipFieldStable | pto_stat/test_protobuf/test.hello.pb.cc:264-265 | skipping a field does not depend on what follows it |
| Wire.FieldSizeIsLength | pto_stat/test_protobuf/test.hello.pb.cc:339-343 | the computed size of an unknown field is its written length |
| Wire.VarintSizeIsLength | pto_stat/test_protobuf/test.hello.pb.cc:326-328 | the size by comparison with powers of 128 is the length of the varint |
| Wire.VarintRoundTrip | pto_stat/test_protobuf/test.hello.pb.cc:230-232 | a varint reads back |
| Wire.VarintBytes | pto_stat/test_protobuf/test.hello.pb.cc:300 | byte i of a varint holds bits 7i to 7i + 6 and says whether more follow |
| Wire.LongVarintsFail | pto_stat/test_protobuf/test.hello.pb.cc:230-232 | a varint of more than ten bytes is an error |
| Wire.FieldWidths | pto_stat/test_protobuf/test.hello.pb.cc:264-265 | fixed-width fields take 8 or 4 bytes as they are; end-group tags and the wire types 6 and 7 are no field |
| Wire.GroupsMatch | pto_stat/test_protobuf/test.hello.pb.cc:264-265 | a group ends with the end tag of its own number and no other |
| CharDevice.SetMessageShows | kernel/ioctl/chardev.c:147-163 | after IOCTL_SET_MSG the device shows exactly the message iff its length is 1 to 79, or it is empty over an empty one |
| CharDevice.WriteShows | kernel/ioctl/chardev.c:108-122 | after a plain write without NULs the device shows the data and whatever stood behind it: a shorter write leaves the end of the old message |
| CharDevice.SetAndRead | kernel/ioctl/chardev.c:63-163 | after setting a message, reads of any positive lengths deliver it in order, and once a read returns 0 all of it |
| CharDevice.SetAndGet | kernel/ioctl/chardev.c:147-175 | after setting a message, getting it yields it NUL-terminated in any buffer that holds it |
| CharDevice.Session | kernel/ioctl/chardev.c:31-175 | open, set, read, release: a busy device refuses and nothing changes, and a session leaves the device free |
| CharDevice.DeliveriesJoin | kernel/ioctl/chardev.c:78-101 | successive reads join to a prefix, and to everything once one delivers nothing |
| CharDevice.DeliveryLengths | kernel/ioctl/chardev.c:78-101 | each read delivers as much as it asks for, or all that is left |
| CharDevice.Device.Read | kernel/ioctl/chardev.c:63-102 | copies up to the length or the NUL, moves the cursor by as much, and leaves the rest of the buffer |
| CharDevice.Device.Write | kernel/ioctl/chardev.c:108-122 | overwrites at most 80 bytes without a terminator, leaves every byte behind them, and rewinds |
| CharDevice.Device.IoctlSetMsg | kernel/ioctl/chardev.c:147-163 | writes the user's string up to its NUL and with it, and leaves every byte behind |
| CharDevice.Device.IoctlGetMsg | kernel/ioctl/chardev.c:164-175 | a buffer that holds what was left and its NUL gets exactly that, and keeps its other bytes |
| CharDevice.Device.Open | kernel/ioctl/chardev.c:31-46 | one opener at a time, and the cursor rewinds |
| CharDevice.Device.Release | kernel/ioctl/chardev.c:48-57 | frees the device for the next opener |
| Pacing.WriteGroup | log/main.c:53-62 | a group pauses exactly at the positive multiples of the step |
| Pacing.PausesAreMultiples | log/main.c:53-62 | that is at floor(4999 / step) positions, those that the step divides |
| Pacing.WriteLog | log/main.c:48-81 | group i pauses at exactly the multiples below 5000 of the step that the misses of the groups before it have left, in order; without async mode nothing pauses |
| Pacing.StepsAre | log/main.c:48-81 | the step of a group is what the groups before it have left |
| Pacing.FinalStepGrows | log/main.c:66-75 | one more group halves the step, to 1 at least, if messages were missed in it, and otherwise adds 250, up to 5000 |
| Pacing.StepStaysInRange | log/main.c:68-74 | over any history the step stays in 1 to 5000 |
| Pacing.LosslessGroups | log/main.c:71-74 | k groups without losses give min(5000, s + 250k) |
| Pacing.LossyGroups | log/main.c:68-70 | k groups with losses give max(1, s div 2^k) |

## Left out

- The `fev`, `fevbuff`, logging, configuration, socket and process calls, the status timer, and `fork`: unseen libraries or plumbing; the assumptions above stand for what the engine needs of them.
- Failing `malloc`, and the client structure that is lost when no event buffer can be created: not represented.
- Wrap-around of the request and response counters after 2^31 requests, of the number of buffered bytes past an int, of microsecond differences past 35 minutes, and of `max - min + 1` over the full int range.
- Reads of a freed object whose value is used for nothing: a read that mattered would fail its proof, a write or a second free does fail it.
- Where the stream of the protocol buffer library stands behind a byte sequence that is no tag: taken to be in front of it.
- Systems whose `snprintf` also refuses a buffer size above INT_MAX.
- HttpHandlers.Serve: requires that the configuration's responses fit, because without it the code writes past its buffer or hands on a length that is no int, and C defines nothing from there on.
- CharDevice.Device.Read: requires a NUL at or behind the cursor, because without one the driver reads past its buffer.
- HelloCodec.RoundTrip: for names and data whose length is an int, as the size computation returns an int.
- The nesting limit of the protocol buffer library, UTF-8 verification, descriptors, reflection, default instances and cached-size write guards.
- `MyRequest` and `MyResponse`: one-field instances of the same generated code.
- The byte-wise ioctl of the character device, module registration, and the two near copies of the driver.
- Concurrent writers in the log benchmark: another thread appears only as the miss counts that it leaves before and after a group.
- The remaining programs (`kernel/proc`, `kernel/sched`, `jmp`, `todo`, `cpu_affinity`, the echo and dns programs, the JSON benchmark) and all scripts.
