# A verified model of the rocket RPC framework

The project models the stateful cores of the framework in Dafny and proves what they keep over every run. Classes carry
the program's own fields and methods; each method that changes state is proved equal to a function on values, and the
results are lemmas about those functions and about sequences of them.

- `Bytes`, `Wrappers`, `ErrorCodes`: bytes, 32-bit network order, optional values, error constants.
- `BufferModel`, `BufferRuns`, `TcpBuffers`: the read/write-index buffer with compaction and growth. It is a byte queue;
  copying and capacity are bounded over all runs.
- `TinyPB`, `Decoding`, `Coder`: the TinyPB frame, its parser, the scanning decode loop and the coder over message objects.
- `Receiving`: `onRead` followed by `decode`, for a stream that arrives in pieces, and exactly when it survives that.
- `Dispatching`, `Matching`, `Connections`, `EndToEnd`, `CallRuns`: request dispatch, callbacks waiting for responses, a
  connection with the history of what it read, started, finished and wrote, the whole way from the requests of one
  connection to its callbacks, and one call carried out between two connection objects.
- `TimerModel`, `TimerExamples`, `Timers`: the multimap of deadlines over a one-shot timerfd.
- `RpcChannels`: one call and the timeout, connect and response events that race to complete it.
- `EventLoops`, `LogPipelines`: two hand-off pipelines as machines that interleave all threads' steps.
- `MsgIds`, `Tables`: message ids, the fd table, round robin.

## What the code does not do

Where the code does not meet what one would expect of it, the model keeps the code and the lemmas say when it does.

- `decode` never ends on a frame that ends at the very end of the vector (`Coder.ExactFitNeverEnds`), and gives back other
  fields than were sent when they do not fit the parser's arrays or hold a NUL (`TinyPB.FrameParses`); the round trip
  through a buffer holds exactly when neither happens (`Coder.RoundTripIff`).
- A frame cut after two to four bytes makes `decode` run forever, or read before its vector, exactly if all the length
  bytes that have come are zero, that is, if the frame is shorter than 256 to the power of the length bytes missing
  (`Receiving.SurvivesIff`, `Receiving.FirstFrameCutIff`, `Receiving.SecondFrameCutIff`).
- `decode` steps from the old read index, so a frame behind other bytes is not stepped over exactly: one stray byte in
  front of a frame leaves that frame's end byte in front of the next (`Decoding.LeavesRestIff`, `Decoding.GarbageByteStays`).
- `onRead` drops every read that fills the free space, and the input buffer never grows: a frame on an empty connection is
  received exactly if it is shorter than the buffer (`Receiving.KeptIff`, `Receiving.OneFrameIff`,
  `Receiving.InputNeverGrows`).
- `onWrite` never consumes the out buffer, so everything is sent again at each flush. For responses matching by id makes
  that harmless (`Matching.ResendingIsHarmless`); a request starts its method once more each time it is sent again, and
  exactly once if and only if it was sent once (`EndToEnd.StartedAsOftenAsFlushed`).
- After a partial write it starts from the front as well. The wire carries the frames that the writes took whole, sent
  again, exactly if every write ended between two frames (`Matching.WireIsResentIff`), and after writes that did, one more
  leaves any stream of frames at all exactly if it does too (`Matching.LastWriteIff`); ten bytes of a message and then all of
  it are no stream of frames (`Matching.TenBytesBreakStream`), though two cuts can make up a frame by chance
  (`Matching.CutsCanRejoin`). What `decode` makes of a cut-off frame and then the whole one is
  `Decoding.PartialFrameStays`.
- A timer event added while it is pending can keep an entry under an older key, and the timerfd is then set too late for
  others (`TimerExamples.AddedTwiceArmsLate`). If some events may be added while they are pending and some may be repeated,
  the deadline is in time in all runs exactly if no event may be both (`TimerExamples.TwiceAddedInTimeIff`).
- Two runs of a repeated event can be closer than its interval by as much as the first was late (`TimerModel.PeriodIsKept`,
  `TimerExamples.LateCallback`), and a deleted event still runs if `onTimer` had already collected it
  (`TimerModel.DeletedRunsIff`).
- A call whose timeout comes first never runs its closure, unless `CallMethod` was given another controller than `Init`
  (`RpcChannels.CompletesAtMostOnce`).
- A request that cannot be dispatched gets no response, and a service in a protobuf package is never found
  (`Dispatching.NamesOwnServiceIff`).
- An fd closed while registered is left behind in the listened set, and its next epoll_ctl fails
  (`EventLoops.ControlsSucceedIff`); a refused connect does that (`EventLoops.ClosedFdIsLeftBehind`).
- Overlapping `syncLoop` calls reorder the log exactly when a vector swapped out later is handed over before one with lines
  in it (`LogPipelines.FileIsPrefixIff`, `LogPipelines.DrainedInOrderIff`, `LogPipelines.OverlapReorders`).
- A stop asked for while the log writer waits does not end it until another batch comes
  (`LogPipelines.StopWaitsForBatch`).
- A buffer made with less than three bytes is compacted without anything having been read
  (`BufferRuns.AmortisedCompactionIff`).
- The second time a thread's ids reach the string of nines, the carry loop leaves the string, because each seeding
  lengthens the maximum again (`MsgIds.MsgIdGenerator.OverrunsIff`, `MsgIds.MsgIdGenerator.SeedTwice`).

## Model

| member | source | states |
|---|---|---|
| Bytes.NetRoundTrip | rocket/common/util.cc:40-44 | every 32-bit integer survives the network byte order |
| Bytes.NetRoundTripBytes | rocket/common/util.cc:40-44 | and every four bytes are the encoding of the integer read from them |
| Bytes.NetBigEndian | rocket/common/util.cc:40-44 | the four bytes of an integer are the base-256 digits of its two's complement value, the most significant first |
| BufferModel.WrittenContents | rocket/net/tcp/tcp_buffer.cc:36-44 | writing appends, growing to 1.5 times what is needed only when there is no room |
| BufferModel.TakenContents | rocket/net/tcp/tcp_buffer.cc:47-61 | reading drops the prefix read, at most what is readable |
| BufferModel.ResizedContents | rocket/net/tcp/tcp_buffer.cc:64-74 | resizing keeps the contents, or the prefix that fits |
| BufferModel.AdjustedContents | rocket/net/tcp/tcp_buffer.cc:77-90 | compaction leaves the contents unchanged and restores the bound on the read index |
| BufferModel.ReadMovedContents | rocket/net/tcp/tcp_buffer.cc:92-100 | moving the read index drops exactly that many bytes iff the new index is inside the vector (or nothing is asked for) |
| BufferModel.FilledContents | rocket/net/tcp/tcp_buffer.cc:102-111 | bytes stored behind the write index and taken in by moving it are appended iff they do not reach the capacity; if they do, nothing is |
| BufferRuns.FirstInFirstOut | rocket/net/tcp/tcp_buffer.cc:36-111 | over every run of writes, reads, index moves, fills from a socket and resizes: output followed by contents is the input, less what a resize cut off; indices stay ordered, the read index 0 or below a third of the capacity |
| BufferRuns.CompactionIsPaidFor | rocket/net/tcp/tcp_buffer.cc:77-90 | a compaction copies at most 2r + 2 bytes, r consumed since the read index was last 0 |
| BufferRuns.AmortisedGrowth | rocket/net/tcp/tcp_buffer.cc:36-111 | over every run in which callers do not shrink the buffer: growth copies at most 3 bytes per byte taken in, and the capacity stays within 9/4 of the most bytes ever held or at its first or largest asked size |
| BufferRuns.AmortisedCompactionIff | rocket/net/tcp/tcp_buffer.cc:77-111 | compaction copies at most 4 bytes per byte consumed, over all such runs, iff the buffer starts with 3 bytes or more |
| TcpBuffers.TcpBuffer.WriteToBuffer | rocket/net/tcp/tcp_buffer.cc:36-44 | in place, the new state is that of the queue model |
| TcpBuffers.TcpBuffer.ReadFromBuffer | rocket/net/tcp/tcp_buffer.cc:47-61 | returns the first bytes of the contents, leaves the rest; the target is untouched when nothing is readable |
| TcpBuffers.TcpBuffer.ResizeBuffer | rocket/net/tcp/tcp_buffer.cc:64-74 | reallocates and moves the contents to the front |
| TcpBuffers.TcpBuffer.AdjustBuffer | rocket/net/tcp/tcp_buffer.cc:77-90 | compacts from a third of the capacity on, and changes nothing below |
| TcpBuffers.TcpBuffer.MoveReadIndex | rocket/net/tcp/tcp_buffer.cc:92-100 | refuses an index at or beyond the capacity, or before the front; takes any other as long as compaction has no negative number of bytes to copy |
| TcpBuffers.TcpBuffer.MoveWriteIndex | rocket/net/tcp/tcp_buffer.cc:102-111 | the same for the write index, also when it moves back |
| TinyPB.FrameParses | rocket/net/coder/tinypb_coder.cc:74-136 | a frame anywhere in memory parses back to its message, lengths filled in, iff the fields are within the array limits and NUL-free |
| TinyPB.WireFormat | rocket/net/coder/tinypb_coder.cc:145-220 | the bytes of a frame, place by place: 2, the frame's own length, id, name and error text each after its length, the error code between, the payload, 0 0 0 1 and 3; every integer big-endian |
| TinyPB.ParsesIff | rocket/net/coder/tinypb_coder.cc:74-136 | on any bytes, whoever wrote them: the parser succeeds with a message iff the big-endian lengths lead to its id, name, error code, error text and payload, each text ended by its first NUL and inside its array |
| TinyPB.FrameIsPrefixFree | rocket/net/coder/tinypb_coder.cc:145-220 | no frame is a proper prefix of another; a frame determines its message, with no limit on the fields |
| TinyPB.FramesInjective | rocket/net/coder/tinypb_coder.cc:145-220 | the byte stream determines the list of messages |
| Decoding.ProgressIff | rocket/net/coder/tinypb_coder.cc:68-71 | an accepted frame shrinks the readable region iff its length is positive and the new read index is inside the vector; otherwise nothing changes or the index goes back |
| Decoding.ProbeIff | rocket/net/coder/tinypb_coder.cc:40-61 | on any bytes: a position is accepted iff 2 stands there and 3 where the big-endian length behind it points, before the write index; it is undefined iff the length is not all inside the vector, points in front of it, or overflows |
| Decoding.DecodeEnds | rocket/net/coder/tinypb_coder.cc:29-66 | with the write index inside the vector decode leaves its loop within one iteration per readable byte plus one, unless it accepts a length that is not positive |
| Decoding.StuckForever | rocket/net/coder/tinypb_coder.cc:29-71 | after an iteration that changes nothing the loop never ends |
| Decoding.LeavesRestIff | rocket/net/coder/tinypb_coder.cc:68-69 | what is left is what lies behind the frame iff the position at the read index is itself accepted |
| Decoding.UntouchedIff | rocket/net/coder/tinypb_coder.cc:28-69 | decode ends and leaves the contents as they are iff its scan accepts no position of them |
| Decoding.DecodeFrames | rocket/net/coder/tinypb_coder.cc:28-139 | whole frames followed by anything: all messages come out in order and exactly the rest is left iff the scan accepts no position of that rest |
| Decoding.DecodeFramesIff | rocket/net/coder/tinypb_coder.cc:28-139 | a buffer of frames gives back its messages iff they are within the limits and the last one does not end at the end of the vector or a compaction came before it |
| Decoding.GarbageByteStays | rocket/net/coder/tinypb_coder.cc:40-69 | behind one byte that is no start byte a frame is decoded, and its end byte is left |
| Decoding.GarbageStaysIff | rocket/net/coder/tinypb_coder.cc:28-69 | behind any bytes no longer than it a frame is found iff the scan passes over every one of them; then decode returns it alone and leaves as many bytes of its end as there were in front, iff the scan accepts no position of those |
| Decoding.PartialFrameStays | rocket/net/tcp/tcp_connection.cc:152-175 | in particular behind its own first p bytes, for any p, as a partial write leaves them: found iff the scan skips those p positions, and then decode returns it alone and leaves its last p bytes iff none of them is accepted |
| Decoding.PartSkipped | rocket/net/coder/tinypb_coder.cc:40-61 | the scan skips them if the part holds the length and no second start byte, and the length points at no end byte |
| Coder.WriteFrame | rocket/net/coder/tinypb_coder.cc:154-207 | the positions written are those of the array, each once and in order, and the bytes are the frame |
| Coder.EncodeTinyPB | rocket/net/coder/tinypb_coder.cc:145-220 | allocates exactly the frame and fills in the message's id and lengths |
| Coder.Encode | rocket/net/coder/tinypb_coder.cc:12-25 | writes the frames of all messages one by one, also when an object occurs twice |
| Coder.EncodedContents | rocket/net/coder/tinypb_coder.cc:12-25 | the buffer gains exactly the concatenated frames, however it grows |
| Coder.FindFrame | rocket/net/coder/tinypb_coder.cc:40-61 | the leftmost position that passes the start, length and end tests |
| Coder.CopyToString | rocket/net/coder/tinypb_coder.cc:86-88 | copying into a zeroed array and reading a C string gives the bytes up to the first NUL |
| Coder.ParseFrame | rocket/net/coder/tinypb_coder.cc:70-134 | fills a message object field by field as the frame parser says, or gives up where it does |
| Coder.ParseFields | rocket/net/coder/tinypb_coder.cc:105-134 | the same from the error code on |
| Coder.Decode | rocket/net/coder/tinypb_coder.cc:28-142 | where decode comes to a defined end it appends the messages of the decode function and leaves its buffer |
| Coder.RoundTripIff | rocket/net/coder/tinypb_coder.cc:12-142 | encoding any messages into an empty buffer and decoding returns them, in order, iff all are within the parser's limits and the last frame does not end at the end of the vector, or at least a third of the capacity lies before it |
| Coder.RoundTripFields | rocket/net/coder/tinypb_coder.cc:12-142 | then each message decoded has the id, name, error and payload sent, their lengths and that of its frame; ids are shorter than 100 bytes, names and error texts than 512, all free of NUL |
| Coder.ExactFitNeverEnds | rocket/net/coder/tinypb_coder.cc:69-136 | a frame filling its buffer exactly is decoded forever |
| Receiving.KeptIff | rocket/net/tcp/tcp_connection.cc:45-69 | a read loop with room r records the last n mod r of n pending bytes; all of them iff n < r |
| Receiving.ArrivedContents | rocket/net/tcp/tcp_connection.cc:45-69 | what is recorded is appended to the contents, and the write index stays inside the vector |
| Receiving.TakenInIff | rocket/net/tcp/tcp_connection.cc:45-92 | one piece of a stream is recorded whole, completes exactly its messages and leaves the unfinished frame iff it is shorter than the free space and the scan accepts no position of what is left |
| Receiving.AdmitsIff | rocket/net/tcp/tcp_connection.cc:45-92 | for a stream in any pieces: that holds for every piece, on the buffer the ones before it leave, iff the cuts are admissible |
| Receiving.ChunkingInvariance | rocket/net/coder/tinypb_coder.cc:28-139 | however a stream of frames is cut at admissible places, decode after each piece has returned exactly the complete messages and the buffer holds exactly the unfinished frame |
| Receiving.StreamDelivered | rocket/net/coder/tinypb_coder.cc:28-139 | the whole stream gives all messages and an empty buffer |
| Receiving.FrameByFrameIff | rocket/net/tcp/tcp_connection.cc:45-92 | a stream that arrives one frame at a time is cut admissibly, whatever its payloads, iff each frame is shorter than the space behind the read index it finds |
| Receiving.OneFrameIff | rocket/net/tcp/tcp_connection.cc:45-92 | one frame on an empty buffer comes back as its message iff it is within the parser's limits and shorter than the capacity |
| Receiving.CutsAreAdmitted | rocket/net/coder/tinypb_coder.cc:40-61 | a condition on the bytes alone for admissible cuts, whatever lies behind the write index |
| Receiving.PrefixIsQuiet | rocket/net/coder/tinypb_coder.cc:40-61 | a frame may be cut anywhere but after two to four bytes if no second start byte lies before the cut |
| Receiving.SurvivesIff | rocket/net/coder/tinypb_coder.cc:40-69 | a stream in pieces that find room, with no second start byte in an unfinished frame, on a buffer with zeros behind the write index: decode neither hangs nor faults iff no cut falls two to four bytes into a frame shorter than 256 to the power of the length bytes missing, and iff the cuts are admissible |
| Receiving.FirstFrameCutIff | rocket/net/coder/tinypb_coder.cc:43-57 | in particular for the first k bytes of a frame on a fresh connection of any capacity |
| Receiving.SecondFrameCutIff | rocket/net/coder/tinypb_coder.cc:43-57 | and for the first k bytes of one frame behind another, for any two messages |
| Receiving.InputNeverGrows | rocket/net/tcp/tcp_connection.cc:45-54 | over every run the input buffer keeps its capacity, and every decoded frame is shorter than it |
| Dispatching.NamesOwnServiceIff | rocket/net/rpc/rpc_dispatcher.cc:112-129 | a method's full name is split into its own service and method iff the service name has no dot |
| Dispatching.DispatchDecides | rocket/net/rpc/rpc_dispatcher.cc:35-76 | a method is started iff the full name is a registered dot-free service, a dot and one of its methods, and the payload parses; a refusal's code says which of these failed; id and method are always echoed |
| Dispatching.AllStarted | rocket/net/tcp/tcp_connection.cc:93-103 | requests that can be dispatched start one method each, in order, with their own request and response |
| Dispatching.RpcDispatcher.RegisterService | rocket/net/rpc/rpc_dispatcher.cc:133-137 | the service is found under its full name, replacing an earlier one |
| Dispatching.RpcDispatcher.ParseServiceFullName | rocket/net/rpc/rpc_dispatcher.cc:112-129 | splits at the first dot, fails iff there is none |
| Dispatching.RpcDispatcher.DispatchRequest | rocket/net/rpc/rpc_dispatcher.cc:35-109 | the response carries the request's id and method; each error fills in its code and starts nothing |
| Dispatching.RpcDispatcher.FillResponse | rocket/net/rpc/rpc_dispatcher.cc:91-99 | the closure puts the result, or the serialisation error, into the response |
| Matching.FiredConcat | rocket/net/tcp/tcp_connection.cc:111-118 | matching two batches in turn is matching them together |
| Matching.FiredOnceEach | rocket/net/tcp/tcp_connection.cc:111-118 | whatever responses come, however often: if a callback waits for each id, each runs once, with the first response for it, in the order the ids first come |
| Matching.ResendingIsHarmless | rocket/net/tcp/tcp_connection.cc:111-165 | a peer that sends its whole out buffer at each flush makes the same callbacks run as if it had sent each response once |
| Matching.ResentTimes | rocket/net/tcp/tcp_connection.cc:152-175 | each message is on the wire as often as a flush reaches it |
| Matching.WireIsResentIff | rocket/net/tcp/tcp_connection.cc:152-175 | whatever the writes took, counting for each the frames it took whole: the wire carries exactly those iff every write ended between two frames |
| Matching.LastWriteIff | rocket/net/tcp/tcp_connection.cc:152-175 | after writes that ended between frames and one more, the wire is a stream of frames, of any messages, iff that one ended between two frames |
| Matching.RestartBreaksStream | rocket/net/tcp/tcp_connection.cc:152-175 | a message cut off after its length and then sent whole is no stream of frames, of any messages, unless its own end byte stands where the length points |
| Matching.TenBytesBreakStream | rocket/net/tcp/tcp_connection.cc:152-175 | the empty message cut off after ten bytes is such a case |
| Matching.CutsCanRejoin | rocket/net/tcp/tcp_connection.cc:152-175 | a message for which two writes that both end inside its frame put exactly its frame on the wire |
| Connections.TcpConnection.ReadPending | rocket/net/tcp/tcp_connection.cc:43-69 | the read loop leaves the input buffer the receiving model says, and reports the peer's close iff nothing was recorded |
| Connections.TcpConnection.OnRead | rocket/net/tcp/tcp_connection.cc:35-85 | one step of the receiving model, then dispatch or matching of exactly its messages, with new objects; keeps: everything decoded so far is what the model gives for everything read, the callbacks run are those it was waited for by, the methods started are those of everything decoded; nothing when not connected or closed; another read can follow |
| Connections.TcpConnection.ExcuteClient | rocket/net/tcp/tcp_connection.cc:105-120 | runs and erases the callbacks of the decoded responses |
| Connections.TcpConnection.ExcuteServer | rocket/net/tcp/tcp_connection.cc:89-103 | starts exactly the dispatchable requests, in order, each with its own request and a response object of its own |
| Connections.TcpConnection.Reply | rocket/net/tcp/tcp_connection.cc:125-128 | appends the frames of the replies to the out buffer and listens for writing; keeps: the out buffer holds the frames of everything ever encoded, and the wire what the writes took of it |
| Connections.TcpConnection.RunClosure | rocket/net/rpc/rpc_dispatcher.cc:91-105 | the closure of a started method replies that method's response with its result; keeps: a server has encoded the replies of the closures run, in order, and nothing else |
| Connections.TcpConnection.OnWrite | rocket/net/tcp/tcp_connection.cc:130-190 | a client first encodes its queue; then the writes are made, partial ones too, each from the front; stops listening iff one took everything; a client runs its write callbacks in order; another write can follow |
| Connections.TcpConnection.SendOut | rocket/net/tcp/tcp_connection.cc:151-182 | the write loop: offers everything readable until it is taken at once or the socket is full, and consumes nothing |
| Connections.WritesAre | rocket/net/tcp/tcp_connection.cc:151-175 | the i-th write takes what the socket has room for then, at most everything, and all but the last are cut short |
| Connections.WritesEnd | rocket/net/tcp/tcp_connection.cc:151-182 | the loop goes on while the socket is not full; everything is sent iff the last write took all of it, or there was nothing |
| Connections.TcpConnection.SetState | rocket/net/tcp/tcp_connection.cc:192-194 | connected, whatever is asked for |
| Connections.TcpConnection.PushReadMessage | rocket/net/tcp/tcp_connection.cc:255-257 | a callback waiting for the id stays and nothing changes; otherwise this one waits for it |
| Connections.TcpConnection.FirstAskedRuns | rocket/net/tcp/tcp_connection.cc:105-120 | over every sequence of registrations and responses in which no id is registered again after its response: the callback run for an id is the first one ever registered for it |
| Connections.TcpConnection.PushSendMessage | rocket/net/tcp/tcp_connection.cc:251-253 | queues in order |
| EndToEnd.StartedAsOftenAsFlushed | rocket/net/tcp/tcp_connection.cc:88-175 | the server starts a method for each request received, and a request is received as often as the client flushed it: once iff flushed once |
| EndToEnd.ReplyIds | rocket/net/rpc/rpc_dispatcher.cc:44-45 | replies carry the ids of their requests, in whatever order methods finish |
| EndToEnd.ConnectionsAnswerEveryCall | rocket/net/tcp/tcp_connection.cc:35-190 | the theorem below about two connection objects and their histories, given what was queued, read and finished and that each write ended between frames: the server has decoded the requests, started one method for each and encoded their replies and nothing else, and every call is answered exactly once |
| EndToEnd.EveryCallAnsweredOnce | rocket/net/tcp/tcp_connection.cc:88-128 | encode, resend, decode, dispatch, reply, resend, decode, match: each callback runs exactly once, with a reply computed for its own request, in the order of first replies, and none keeps waiting, at any admissible cuts of either stream |
| EndToEnd.AnsweredFrameByFrame | rocket/net/tcp/tcp_connection.cc:88-128 | the same when frames arrive one by one and each is shorter than the space it finds |
| EndToEnd.ShortFramesAnswered | rocket/net/tcp/tcp_connection.cc:88-128 | and whenever requests and replies each leave a third of the capacity free |
| CallRuns.CallOnce | rocket/net/tcp/tcp_connection.cc:35-190 | a run of two connection objects that meets all that the theorem asks for: any request and result with room in the buffers go from queue to callback, which is run once with the reply |
| TimerModel.FiresExactlyTheDue | rocket/net/timer.cc:44-56 | onTimer collects exactly the due entries that are not cancelled, each once, by arrival and then insertion |
| TimerModel.NothingLost | rocket/net/timer.cc:55-66 | afterwards the multimap holds exactly the entries not due and one fresh entry per repeated event run |
| TimerModel.NextInOrder | rocket/net/timer.cc:114-126 | every step keeps the multimap sorted by arrival, ties in insertion order |
| TimerModel.IntervalSplit | rocket/net/timer.cc:89-100 | the interval is positive and seconds and nanoseconds represent it exactly |
| TimerModel.AddedExactIff | rocket/net/timer.cc:114-134 | adding keeps one entry per event under its own arrival time iff the event is not pending |
| TimerModel.DeletesExactlyOne | rocket/net/timer.cc:137-155 | deleting removes exactly the event's own entry and no other |
| TimerModel.AlwaysArmed | rocket/net/timer.cc:68-134 | over every run, also with events added twice: while anything is pending the timerfd is set or expired |
| TimerModel.StepSetsFd | rocket/net/timer.cc:24-134 | each step: the timerfd is set when an event is added first or before the one in front, and by onTimer if anything is pending, to the arrival in front or, if that has passed, 100 ms on; onTimer empties it, and nothing else touches it |
| TimerModel.FdIsSetForFront | rocket/net/timer.cc:78-112 | over every run: a timerfd that is set has been set, in some earlier state, to exactly that for the event then in front, so it never expires before that one is due |
| TimerModel.DeadlineInTimeIff | rocket/net/timer.cc:78-134 | over every run: whenever the timerfd is set, it is for no later than the first arrival or 100 ms after it was set, iff each time it is set the event in front is due first or within 100 ms |
| TimerModel.DeadlineInTime | rocket/net/timer.cc:78-134 | so it is, on any clock, in every run in which no repeated event is added while it is pending, whatever else is added twice |
| TimerExamples.AddedTwiceArmsLate | rocket/net/timer.cc:59-134 | for any two events: a run in which the first, repeated, is added twice and makes the deadline late for the second |
| TimerExamples.TwiceAddedInTimeIff | rocket/net/timer.cc:59-134 | whichever events may be added while pending and whichever may repeat: in all such runs, on clocks that do not go back, the deadline is always in time iff no event may be both |
| TimerModel.PeriodIsKept | rocket/net/timer.cc:59-74 | over every run in which no event is added while pending: a repeated event is due again at least its interval after it was collected and runs no earlier than due, so two runs are at least the interval less the first one's lateness apart |
| TimerExamples.LateCallback | rocket/net/timer.cc:59-74 | that bound is met for every period and every lateness up to it |
| TimerModel.DeletedRunsIff | rocket/net/timer.cc:44-159 | over every later run, even with events added twice: a deleted event runs again exactly where it is in the batch already collected and not yet run |
| Timers.TimerEvent.ResetArriveTime | rocket/net/timer_event.cc:14-18 | due one interval after the clock reading |
| Timers.Timer.AddTimerEvent | rocket/net/timer.cc:114-134 | inserts behind equal keys and re-arms when the event comes first |
| Timers.Timer.DeleteTimerEvent | rocket/net/timer.cc:137-159 | cancels, and erases the entry found in the equal range |
| Timers.Timer.ResetArriveTime | rocket/net/timer.cc:78-112 | sets the timerfd for the first entry, if there is one |
| Timers.Timer.CollectTasks | rocket/net/timer.cc:24-68 | onTimer up to its last loop: the transition of the model, and the callbacks to run |
| Timers.Timer.RunTask | rocket/net/timer.cc:70-74 | one turn of that loop |
| Timers.Timer.OnTimer | rocket/net/timer.cc:24-76 | the whole, when nothing comes between the callbacks |
| RpcChannels.RpcController.StartCancel | rocket/net/rpc/rpc_controller.cc:26-30 | cancelled, failed and finished |
| RpcChannels.RpcController.SetError | rocket/net/rpc/rpc_controller.cc:46-50 | code, text and failed |
| RpcChannels.FinishedForGood | rocket/net/rpc/rpc_channel.cc:25-37 | a finished call stays finished and its closure does not run again; a report can still replace its error |
| RpcChannels.CompletesAtMostOnce | rocket/net/rpc/rpc_channel.cc:106-178 | over every interleaving: no closure run before the first completing event; if that is the timeout, none at all when CallMethod got the channel's own controller and one that sees no error when it got another; otherwise exactly one, which sees that event's outcome, and the controller never changes again |
| RpcChannels.ConnectFailureShows | rocket/net/rpc/rpc_channel.cc:123-136 | field by field: after a failed connect the closure sees code and text of connect and a failed, unfinished controller, which is then finished and stays as it is |
| RpcChannels.ResponseShows | rocket/net/rpc/rpc_channel.cc:149-178 | field by field: code 10000004 if the payload does not parse, else the error the response carries, else the controller as it was; then finished, and it stays as it is |
| RpcChannels.TimeoutShows | rocket/net/rpc/rpc_channel.cc:106-118 | field by field: after the timeout the controller is failed, cancelled and finished with code 10000007 and the timeout's text, until a later failure of the connection replaces these two |
| RpcChannels.TimeoutElsewhereShows | rocket/net/rpc/rpc_channel.cc:106-118 | the same on another controller given to CallMethod: the closure sees the channel's own, as it was before the call |
| RpcChannels.GivenTimesOut | rocket/net/rpc/rpc_channel.cc:106-118 | over every run: such a controller times out iff the timeout occurs and finds it unfinished, and nothing else happens to it |
| RpcChannels.PossibleEventsIff | rocket/net/rpc/rpc_channel.cc:106-178 | the sequences of events a pending call can live through are exactly those with at most one timeout and, of the client, a failed connect or a beginning of connected, written, response |
| RpcChannels.DigitsRead | rocket/net/rpc/rpc_channel.cc:114 | the text of a number reads back as the number and has no leading zero |
| RpcChannels.NeverFinishedWithoutClosure | rocket/net/rpc/rpc_channel.cc:25-37 | without a closure the controller given to CallMethod is finished iff the timeout occurred, and another given to Init never |
| RpcChannels.RpcChannel.CallBack | rocket/net/rpc/rpc_channel.cc:25-37 | runs the closure and finishes the call unless finished already |
| RpcChannels.RpcChannel.Init | rocket/net/rpc/rpc_channel.cc:187-196 | only the first initialisation counts |
| RpcChannels.RpcChannel.CallMethod | rocket/net/rpc/rpc_channel.cc:40-120 | for any controller: a missing one, or a failing check on a channel without one, is a null dereference; otherwise each failing check reports its error once; the id is the controller's, the runtime's or a fresh one; else timer and connection are pending |
| RpcChannels.RpcChannel.OnTimeout | rocket/net/rpc/rpc_channel.cc:106-118 | the timeout step of the machine |
| RpcChannels.RpcChannel.OnConnect | rocket/net/rpc/rpc_channel.cc:123-136 | the connect step of the machine |
| RpcChannels.RpcChannel.OnResponse | rocket/net/rpc/rpc_channel.cc:149-178 | the response step of the machine |
| EventLoops.TasksRunInPostOrder | rocket/net/eventloop.cc:113-128 | over every interleaving of posters with the loop: run, batch and queue together are the posted sequence, and the batch is drained whenever the stop flag is checked |
| EventLoops.NothingRunsAfterExit | rocket/net/eventloop.cc:115-128 | what is queued when the loop is left never runs |
| EventLoops.StoppedIff | rocket/net/eventloop.cc:113-115 | over every run: the loop is only left after a stop, and the flag is set iff stop was called or a task that asks for it has run |
| EventLoops.EveryTaskIsRun | rocket/net/eventloop.cc:113-128 | from every reachable state without a stop the loop's own next steps run every task posted so far |
| EventLoops.StopTakesEffect | rocket/net/eventloop.cc:113-128 | from every reachable state with one they leave the loop, and before that run exactly the rest of the batch, or what is queued if the flag had just been checked |
| EventLoops.ListenedIsRegisteredIff | rocket/net/eventloop.cc:10-38 | the listened set contains what the kernel has registered, and equals it iff no registered fd was closed without being deleted |
| EventLoops.OwnCallsRegister | rocket/net/eventloop.cc:10-38 | on the loop thread: registering an fd puts it into both sets (the kernel's unless left behind), deleting takes it out of both, and every other fd stays |
| EventLoops.TasksRegister | rocket/net/eventloop.cc:196-220 | a registration posted by another thread does the same when the loop runs it; any other task leaves both sets as they are |
| EventLoops.OtherStepsLeaveSets | rocket/net/eventloop.cc:113-234 | no other step changes the listened set, and only a close the kernel's |
| EventLoops.ListenedIffLastAdded | rocket/net/eventloop.cc:10-38 | over every run: an fd is listened to iff the last registration of it carried out, direct or drained, was an addition |
| EventLoops.OtherThreadsOnlyPost | rocket/net/eventloop.cc:196-234 | however many calls other threads make between two steps of the loop thread: the listened set, the epoll_ctl calls, the tasks run and the batch stay, and the queue gains exactly their tasks and registrations, in order |
| EventLoops.ControlsSucceedIff | rocket/net/eventloop.cc:10-38 | in every reachable state ADD finds the fd absent, and MOD and DEL find it present, iff it was not left behind |
| EventLoops.ClosedFdIsLeftBehind | rocket/net/tcp/tcp_client.cc:59-75 | a refused connect reaches that state: registered, closed, and only then deleted, which fails, as does registering the number again |
| EventLoops.RegistrationIsExact | rocket/net/eventloop.cc:10-38 | with no registered fd closed, every epoll_ctl of the run succeeds and the two sets are equal |
| EventLoops.EventLoop.AddTask | rocket/net/eventloop.cc:222-230 | appends to the queue, and wakes up if asked |
| EventLoops.EventLoop.AddEpollEvent | rocket/net/eventloop.cc:196-207 | the machine's registration step: at once on the loop thread, posted with a wake-up elsewhere |
| EventLoops.EventLoop.DeleteEpollEvent | rocket/net/eventloop.cc:209-220 | the machine's deletion step: at once on the loop thread, posted with a wake-up elsewhere |
| EventLoops.EventLoop.RunBatch | rocket/net/eventloop.cc:116-128 | one turn runs exactly the tasks queued at the swap and leaves the state the machine's pops lead to; tasks those post wait for the next |
| LogPipelines.NothingLostOrDuplicated | rocket/common/log.cc:80-91 | over every interleaving, with any number of overlapping syncLoop calls: lines written and under way are exactly the non-empty lines pushed |
| LogPipelines.FileIsPrefixOfPushes | rocket/common/log.cc:80-91 | as long as no vector overtakes an older one with lines in it, the file is always a prefix of the pushed lines, and the stages hold the rest in order |
| LogPipelines.FileIsPrefixIff | rocket/common/log.cc:80-91 | for different lines, in every state: the file is a prefix of the pushes iff no line that overtook another has been written |
| LogPipelines.DrainedInOrderIff | rocket/common/log.cc:80-91 | for different lines, once all are written: the file has the order of the pushes iff no vector overtook another |
| LogPipelines.OverlapReorders | rocket/common/log.cc:52-59 | two overlapping calls can write the later of any two different lines first |
| LogPipelines.NothingWrittenAfterExit | rocket/common/log.cc:292-294 | what is queued when the writer leaves is never written |
| LogPipelines.LeavesOnlyWhenStopped | rocket/common/log.cc:292-294 | over every run: the writer has left only if a stop was asked for, and the flag is set iff it was |
| LogPipelines.TurnEnds | rocket/common/log.cc:284-295 | a batch taken is written to its end, and the writer then leaves iff a stop has been asked for |
| LogPipelines.EverythingIsWritten | rocket/common/log.cc:80-295 | from every reachable state in which no stop was asked for, one more syncLoop and the writer's own steps bring every non-empty line pushed into the file, in the order of the pushes unless a vector has overtaken another |
| LogPipelines.StopWaitsForBatch | rocket/common/log.cc:230-303 | a writer that waits for a batch stays, stop or not, as long as none is handed over |
| LogPipelines.BatchIsWritten | rocket/common/log.cc:284-288 | writing line after line takes the machine to the state after the batch |
| LogPipelines.AsyncLogger.WriteBatch | rocket/common/log.cc:238-294 | one turn is the machine's take, writes and finish |
| LogPipelines.AsyncLogger.PushLogBuffer | rocket/common/log.cc:312-317 | the batch goes to the end of the queue |
| LogPipelines.Logger.PushLog | rocket/common/log.cc:185-193 | the machine's push |
| LogPipelines.Logger.HandOverVector | rocket/common/log.cc:87-90 | the machine's hand-over, for any of the calls under way |
| LogPipelines.Logger.SyncLoop | rocket/common/log.cc:80-91 | the machine's swap and hand-over |
| MsgIds.IncrementedValue | rocket/common/msg_id_util.cc:33-42 | carry and zero fill add exactly one |
| MsgIds.CallsCountUp | rocket/common/msg_id_util.cc:16-47 | from a seed of value v the calls return v + 1, v + 2, ... up to the string of nines and not beyond |
| MsgIds.IdsAreDistinct | rocket/common/msg_id_util.cc:16-47 | the ids of one seed are pairwise distinct |
| MsgIds.MsgIdGenerator.OverrunsIff | rocket/common/msg_id_util.cc:17-36 | the carry loop leaves the string iff the generator was seeded more than once and has reached the nines |
| MsgIds.MsgIdGenerator.SeedTwice | rocket/common/msg_id_util.cc:17-36 | two calls on a new generator reach that state |
| MsgIds.MsgIdGenerator.SeedAnew | rocket/common/msg_id_util.cc:21-31 | the id becomes the random bytes as digits, and the maximum another twenty nines longer |
| MsgIds.SeedDigits | rocket/common/msg_id_util.cc:26-28 | each digit of a new id is the last decimal digit of its random byte |
| MsgIds.EverySeedOccurs | rocket/common/msg_id_util.cc:26-28 | every string of digits is the seed of some random bytes |
| MsgIds.MsgIdGenerator.CountUp | rocket/common/msg_id_util.cc:33-42 | in place, the carry loop and zero fill give the next number |
| MsgIds.MsgIdGenerator.GenMsgID | rocket/common/msg_id_util.cc:16-47 | seeds from random bytes, returns nothing when there are none, else counts up by one |
| Tables.GrowthCoversIff | rocket/net/fd_event_group.cc:43 | growth to 1.5 times an fd covers it iff it is at least 2 |
| Tables.FdEventGroup.GetFdEvent | rocket/net/fd_event_group.cc:37-50 | gives the entry of that fd; existing entries keep their identity |
| Tables.FdEventGroup.GetFdEvents | rocket/net/fd_event_group.cc:37-50 | over any sequence of look-ups the same fd gives the same object and different fds different ones |
| Tables.IOThreadGroup.GetIOThread | rocket/net/io_thread_group.cc:35-40 | the k-th call gives thread k mod n |
| Tables.SharesAreEven | rocket/net/io_thread_group.cc:35-40 | after any number of calls the threads' shares differ by at most one |

## Left out

- Decoding.DecodeEnds: a run that accepts a length that is not positive can move the read index back over consumed bytes;
  `Decoding.DecodeRun` follows the code there, but no claim is made about where such a run ends.
- TcpBuffers.TcpBuffer.WriteToBuffer: sizes are unbounded integers; the int overflow of the original at 2^31 is not
  modelled. `BufferRuns.AmortisedGrowth` bounds the capacity that would have to get there.
- Coder.Decode: it is defined only where decode ends without reading outside its arrays; `Decoding.DecodeRun` says what
  happens elsewhere.
- Receiving.SurvivesIff: bytes that a dropped read has left behind the write index, and second start bytes in an unfinished
  frame, are outside its exact condition on the cuts; `Receiving.AdmitsIff` covers them by what the scan accepts.
- EndToEnd.ConnectionsAnswerEveryCall: its writes each end between two frames. `Matching.WireIsResentIff` says when the wire
  is otherwise; `Receiving.TakenInIff` and `Decoding.PartialFrameStays` are about what such bytes come to, and no claim is made
  about the whole exchange after them.
- Connections.TcpConnection.SendOut: a write error other than a full socket, which repeats the loop for as long as it lasts.
- Connections.TcpConnection.ReadPending: the socket gives the pending bytes in full reads; the branch that would grow the
  input buffer is absent because the invariant excludes it.
- Callbacks, service methods and closures are recorded, not run: they do not re-enter the object that runs them.
- TimerModel.AlwaysArmed: one clock serves getNowMs and the timerfd; the original reads the wall clock for the one and the
  monotonic clock for the other. Callbacks that add or delete events are later steps of the run.
- MsgIds.MsgIdGenerator.GenMsgID: excludes the state in which the carry loop leaves the string, which
  `MsgIds.MsgIdGenerator.OverrunsIff` describes.
- Mutual exclusion: every critical section is one step.
- Half-closing, error callbacks of fd events and prompt wake-up of the loop.
- Sockets, epoll, timerfd, threads and files as system calls: their results are parameters or parts of the state.
- protobuf: payloads are bytes, serialisation succeeds or fails by parameter.
- The application log is a second pipeline of the same kind; log formatting, file naming and rotation, and the synchronous
  logger are left out.
- Configuration, addresses, the TCP client and server around the connection, and the generator and its templates.
