# Verification of WebServer

A Dafny model of the hard logic of the two generations of this Linux web server (`version2.0` and `version3.0`): its
parsers, its output paths, its timers, its asynchronous log and its queues between threads. `dafny verify
dfyconfig.toml` checks all of it.

Most components come as a pair. A functional part says what the component means, as functions and transition systems
over every input and every interleaving, and carries the laws. An object part has the fields of the C++ class and
methods that change them step by step; each method is proved to do what the functional part says.

- **Requests, version 2.0** (`Chars`, `CStrings`, `HttpRequest`, `RequestGrammar`, `HttpConn`). The line scanner and the
  state machine of `http_conn` on the bytes received; which requests it takes, character by character; the object with
  its NUL-patched buffer of 2048 characters and the pointers into it, kept as indices.
- **Responses, version 2.0** (`ScatterWrite`). Header and file sent through two iovecs over a kernel that takes as much
  as it likes, or blocks.
- **Timers, version 2.0** (`TimerList`, `TimerServer`). The doubly linked list on linked objects, and the way the
  server arms, refreshes and expires timers.
- **Log, version 3.0** (`AsyncLog`, `AsyncLogging`, `LogStream`, `Decimal`). Producers and one writer around recycled
  buffers; fixed buffers and the integer formatter.
- **Task queue, version 3.0** (`EventLoop`). Queue, swap, eventfd and the decision whether to wake.
- **Timers, version 3.0** (`TimerClock`, `TimerQueue`). Nodes that are deleted lazily, their links with connections,
  and the clock that wraps every 10,000 seconds.
- **Headers and output, version 3.0** (`HeaderParser`, `Connection`, `OutputPath`). The character automaton with the
  grammar it accepts; `writen`, `readn` and the handlers that decide when epoll is asked for output. What `handleConn`
  decides is defined once, in `Connection`, for the timers and for the output.
- **Queues, version 2.0** (`ThreadPool`, `BlockQueue`). The semaphore-driven pool and the circular blocking queue.

What the operating system decides is an input: the bytes a socket delivers, how many bytes a write takes or how it
fails, which wait returns when, what time it is. Threads interleave between atomic steps, which are the critical
sections and the single operations on semaphores and eventfds.

## Where the code falls short

Eight laws do not hold of the code as it is. For each, the condition under which it does is proved in both directions
where that is possible, with an input for which it does not.

- `version2.0/http/http_conn.cpp:307` compares all bytes sent with the header bytes that were left. A write that stops
  inside the header after others have is taken for one that finished it (`ScatterWrite.Conservation`,
  `ScatterWrite.TwoStopsLoseBytes`).
- `version2.0/timer/lst_timer.cpp:21-25` does not move `head`: the timer inserted is lost. The server never gets there
  while the clock does not go back (`TimerList.SortTimerLst.AddTimer`, `TimerServer.Server.AddClient`).
- `version2.0/server.cpp:90-93` closes a connection and leaves its timer listed. If the descriptor is accepted again,
  the old timer closes the new connection (`TimerServer.AllCurrentIffNoReuse`,
  `TimerServer.OldTimerClosesNewConnection`).
- `version3.0/net/Timer.cpp:32-33` compares a wrapping clock with a deadline that does not wrap. A node whose deadline
  crosses the wrap never expires by the clock, although the comment at lines 56-67 says that it goes by its timeout at
  the latest (`TimerClock.ExpiresAtAllIff`).
- `version3.0/net/HttpData.cpp:399-400` keeps the positions of the header parser in locals, while its state is a field.
  A header that arrives in two parts is not read as one (`HeaderParser.SecondCallIsRightIff`,
  `HeaderParser.FieldInTwoParts`).
- `version3.0/net/Util.cpp:141` compares a sum with a length cut to an int. From 4 GiB on, bytes not sent can be
  cleared (`OutputPath.WritenConserves`, `OutputPath.LossySizes`).
- `version3.0/net/HttpData.cpp:311-313` sets the mask of a half-closed connection without passing it to epoll, so the
  rest of its reply can wait for an event nobody asked for (`OutputPath.RegisteredAfterSettle`,
  `OutputPath.HalfClosedWaits`), and no timer will close it (`TimerQueue.TimerManager.HalfClosedHasNone`).
- `version3.0/net/HttpData.cpp:18` registers a new connection for one report only. If that report is EPOLLHUP or
  EPOLLERR, `version3.0/net/Channel.h:54-62` calls no handler that would register it again (`OutputPath.DeafIff`).

## Model

| member | source | states |
|---|---|---|
| `HttpRequest.SplitIndependence` | version2.0/http/http_conn.cpp:236-272 | for every way of cutting the received bytes into pieces, one process_read call per piece gives the same first verdict, parsed fields and m_checked_idx as one call on all of them |
| `HttpRequest.ProcessExtends` | version2.0/http/http_conn.cpp:119-142 | a verdict, once reached, does not depend on later bytes; a call that ended without one is continued by the next exactly as if the bytes had been there at once |
| `HttpRequest.ProcessKeepsResumable` | version2.0/http/http_conn.cpp:121-131 | no call stops between a CR it has passed and the LF after it |
| `HttpRequest.ProcessAgain` | version2.0/http/http_conn.cpp:240-241 | a second call without new bytes changes nothing |
| `HttpRequest.LineByLine` | version2.0/http/http_conn.cpp:236-272 | on complete CRLF lines the machine is the reference reader that takes one line at a time |
| `HttpRequest.VerdictReadsLines` | version2.0/http/http_conn.cpp:236-272 | conversely, every call that ends with a verdict has consumed exactly complete lines, and the reference reader on them reaches the same fields and verdict |
| `HttpRequest.HeadersRead` | version2.0/http/http_conn.cpp:181-209 | any sequence of header lines leaves the last Host, the last Content-Length (as a 32-bit int) and whether some Connection header asks for keep-alive |
| `HttpRequest.RequestLineRead` | version2.0/http/http_conn.cpp:145-178 | `GET target HTTP/1.1` is accepted exactly when the target, less an http:// authority, is a path |
| `HttpRequest.RequestRoundTrip` | version2.0/http/http_conn.cpp:145-272 | a request written out line by line, with any bytes after it, is read back exactly, and the scan stops right after the blank line |
| `HttpRequest.RequestInPieces` | version2.0/http/http_conn.cpp:119-272 | the same however the network cuts the text |
| `RequestGrammar.RequestLineAccepted` | version2.0/http/http_conn.cpp:145-178 | for every text: without a blank it faults; with one it is taken if and only if the three characters before the first blank are g, e, t in either case, what follows the second blank is HTTP/1.1 in either case, and the target between them has a path that begins with a slash; else it is refused |
| `RequestGrammar.RequestLineIsRead` | version2.0/http/http_conn.cpp:145-178 | method, path and version that come out of such a line, by positions |
| `RequestGrammar.FirstLineDecides` | version2.0/http/http_conn.cpp:236-272 | whatever follows it, the first line alone decides between fault, refusal and neither |
| `RequestGrammar.VerdictNeedsFirstLine` | version2.0/http/http_conn.cpp:236-272 | every verdict is about a complete first line |
| `RequestGrammar.RequestNeedsRequestLine` | version2.0/http/http_conn.cpp:236-272 | a request, with or without a body, comes only out of a text that begins with a request line of that form |
| `RequestGrammar.BareBreakStops` | version2.0/http/http_conn.cpp:121-139 | a line break that is not CRLF ends the parsing for good, whatever follows |
| `RequestGrammar.HeaderVerdicts` | version2.0/http/http_conn.cpp:181-209 | once the request line is taken nothing is refused |
| `RequestGrammar.HeaderLineVerdict` | version2.0/http/http_conn.cpp:182-187 | an empty line ends the headers: with the request when no length was given, with the body state when one was; no other line does |
| `RequestGrammar.TargetPath` | version2.0/http/http_conn.cpp:166-173 | the path is the text from the target's own slash, or from the first slash behind http:// and an authority |
| `RequestGrammar.ConnectionMeans` | version2.0/http/http_conn.cpp:188 | the header name in any mixture of case, character by character |
| `RequestGrammar.ContentLengthMeans` | version2.0/http/http_conn.cpp:195 | the same |
| `RequestGrammar.HostMeans` | version2.0/http/http_conn.cpp:200 | the same |
| `RequestGrammar.KeepAliveMeans` | version2.0/http/http_conn.cpp:192 | the same for the value |
| `RequestGrammar.ValueBehindBlanks` | version2.0/http/http_conn.cpp:190-191 | a value begins behind the blanks and tabs after its name |
| `RequestGrammar.LastHostDecides` | version2.0/http/http_conn.cpp:200-204 | of several Host headers the last decides, by index; without one there is no host |
| `RequestGrammar.LastLengthDecides` | version2.0/http/http_conn.cpp:195-199 | the same for Content-Length |
| `RequestGrammar.AtolReadsBack` | version2.0/http/http_conn.cpp:199 | the number is read back from the decimal notation of every integer, up to the range of a long, whatever follows the digits |
| `RequestGrammar.AtolSkipsSpace` | version2.0/http/http_conn.cpp:199 | white space before it is skipped |
| `HttpConn.HttpConn.Init` | version2.0/http/http_conn.cpp:68-87 | everything about the previous request is forgotten |
| `HttpConn.HttpConn.Read` | version2.0/http/http_conn.cpp:99-116 | received bytes are appended and parsed strings stay; the call fails exactly when the buffer is or gets full |
| `HttpConn.HttpConn.ParseLine` | version2.0/http/http_conn.cpp:119-142 | the end of the line is found and its terminator, and nothing else, is overwritten with NULs |
| `HttpConn.HttpConn.CutMethod` | version2.0/http/http_conn.cpp:147-150 | the method is cut off in place; what was parsed before stays |
| `HttpConn.HttpConn.CutVersion` | version2.0/http/http_conn.cpp:157-162 | the version is cut off in place; what was parsed before stays |
| `HttpConn.HttpConn.DropAuthority` | version2.0/http/http_conn.cpp:167-170 | m_url moves to the path, or to null when an http:// target has none |
| `HttpConn.HttpConn.ParseTarget` | version2.0/http/http_conn.cpp:157-177 | the in-place parse of target and version agrees with the parse of their text |
| `HttpConn.HttpConn.ParseRequestLine` | version2.0/http/http_conn.cpp:145-178 | the in-place parse of the request line agrees with the parse of its text, and takes exactly the lines of the right form |
| `HttpConn.HttpConn.ParseHeaders` | version2.0/http/http_conn.cpp:181-209 | the in-place parse of a header line agrees with the parse of its text |
| `HttpConn.HttpConn.TakeLine` | version2.0/http/http_conn.cpp:240-243 | a taken line is a NUL-terminated string that holds the raw line's text |
| `HttpConn.HttpConn.ProcessRead` | version2.0/http/http_conn.cpp:236-272 | on the NUL-patched buffer, with pointers into it, the call does what the byte-level machine does on the bytes received |
| `HttpConn.HttpConn.Receive` | version2.0/http/http_conn.cpp:99-272 | reading and parsing any pieces ends with the fields and verdict of one parse of all of them, and only a request of 2048 bytes or more fails to be read; a request comes only out of a text that begins with a request line |
| `ScatterWrite.Conservation` | version2.0/http/http_conn.cpp:283-328 | at every step of a run, bytes sent ++ bytes still described is the response and bytes_to_send counts the latter, if and only if the length fits an int and no short write inside the header is misjudged; the condition is on byte counts alone |
| `ScatterWrite.StepAccounted` | version2.0/http/http_conn.cpp:304-314 | one write keeps the account exactly when it reaches the end of the header or the bytes sent so far, its own included, are fewer than the header bytes that were left before it |
| `ScatterWrite.OneStopIsQuiet` | version2.0/http/http_conn.cpp:307-314 | at most one short write inside the header is always harmless |
| `ScatterWrite.TwoStopsLoseBytes` | version2.0/http/http_conn.cpp:307-310 | two short writes inside a 10-byte header skip its last three bytes and describe memory before the file |
| `ScatterWrite.DriveDelivers` | version2.0/http/http_conn.cpp:283-328 | what has been sent is always a beginning of the response, and all of it when nothing is left to send |
| `ScatterWrite.WholeIs` | version2.0/http/http_conn.cpp:423-426 | the response is the header and then the file, byte by byte |
| `ScatterWrite.DriveCompletes` | version2.0/http/http_conn.cpp:291-325 | reports with room for everything and no failure among them bring an accounted run to its end |
| `ScatterWrite.ReportsMean` | version2.0/http/http_conn.cpp:291-302 | one call uses its writes up to the first that blocks or fails |
| `ScatterWrite.DriveConcat` | version2.0/http/http_conn.cpp:292-299 | a run can be cut at any EAGAIN and continued by a later call |
| `ScatterWrite.PositiveWritesTerminate` | version2.0/http/http_conn.cpp:304-305 | every positive write lowers bytes_to_send and keeps it non-negative |
| `ScatterWrite.HttpConn.ProcessWrite` | version2.0/http/http_conn.cpp:420-448 | the iovecs describe header and file, or the header alone |
| `ScatterWrite.HttpConn.WriteOnce` | version2.0/http/http_conn.cpp:292-314 | one writev and its bookkeeping |
| `ScatterWrite.HttpConn.Write` | version2.0/http/http_conn.cpp:283-329 | write() sends what the run of its writev calls sends, and ends finished, blocked with EPOLLOUT requested, or failed; a count that was cut to a negative int ends it after one write |
| `ScatterWrite.HttpConn.Respond` | version2.0/http/http_conn.cpp:283-329 | over any number of write() calls for one response, as long as no length is misjudged, the bytes on the wire are a beginning of the response and all of it when it is complete; and it is complete once the reports have room for it and none fails |
| `TimerList.SortTimerLst.LinkBetween` | version2.0/timer/lst_timer.cpp:104-108 | links stay consistent and the timer is between its two neighbours |
| `TimerList.SortTimerLst.LinkLast` | version2.0/timer/lst_timer.cpp:115-120 | links stay consistent and the timer is the new tail |
| `TimerList.SortTimerLst.LinkOnly` | version2.0/timer/lst_timer.cpp:16-19 | an empty list becomes a valid one of this timer |
| `TimerList.SortTimerLst.LinkBeforeHead` | version2.0/timer/lst_timer.cpp:21-25 | the head-insert branch leaves the links inconsistent |
| `TimerList.SortTimerLst.AddTimerAfter` | version2.0/timer/lst_timer.cpp:98-121 | the timer is inserted before the first later one behind the given node |
| `TimerList.SortTimerLst.AddTimer` | version2.0/timer/lst_timer.cpp:14-28 | the list stays valid, with the timer in its place, if and only if it is empty or the deadline is not below the head's; otherwise the timer is lost |
| `TimerList.HeadInsertLosesTimer` | version2.0/timer/lst_timer.cpp:21-25 | two timers for which the second never becomes part of the list |
| `TimerList.SortTimerLst.Reinsert` | version2.0/timer/lst_timer.cpp:37-47 | the timer leaves its place and comes back further on |
| `TimerList.SortTimerLst.AdjustTimer` | version2.0/timer/lst_timer.cpp:31-48 | the same timers in a consistent list, sorted if and only if the new deadline is not below that of the timer before |
| `TimerList.SortTimerLst.DelTimer` | version2.0/timer/lst_timer.cpp:51-77 | exactly the timer is gone; links and order stay |
| `TimerList.SortTimerLst.Tick` | version2.0/timer/lst_timer.cpp:80-95 | exactly the timers due are removed and fire, in order; the rest stays, even with a dangling tail |
| `TimerList.AscendingInserted` | version2.0/timer/lst_timer.cpp:97-113 | where an insertion keeps a sequence ascending |
| `TimerServer.ListIsLastActivity` | version2.0/server.cpp:90-192 | over every run the list holds exactly the timers with an activity and no removal or expiry since, with the deadline of the last one, in the order of last activity; a hang-up removes none, and a descriptor accepted again gets a new one |
| `TimerServer.DeadlinesAscend` | version2.0/server.cpp:139-184 | with a clock that does not go back, deadlines ascend and are at most three slots ahead |
| `TimerServer.TickFiresPrefix` | version2.0/server.cpp:116-119 | a tick fires a prefix of the list: exactly the timers due |
| `TimerServer.AllCurrentIffNoReuse` | version2.0/server.cpp:129-142 | all listed timers are those of their descriptors throughout a run if and only if no descriptor is accepted while a timer of it is listed |
| `TimerServer.OpenHasTimer` | version2.0/server.cpp:90-192 | over every run, each open descriptor has its own timer in the list, so no event on one follows a timer that was freed |
| `TimerServer.OpenIff` | version2.0/server.cpp:84-106 | a descriptor is open if and only if it was accepted and no failure, hang-up or due timer of it has come since |
| `TimerServer.OldTimerClosesNewConnection` | version2.0/server.cpp:90-93 | a run in which the timer that a hang-up left behind closes the next connection on its descriptor one second after it was accepted |
| `TimerServer.Server.AddClient` | version2.0/server.cpp:129-142 | a new client's timer is appended, whatever is listed; the branch that loses timers is not taken, and the run gains one event |
| `TimerServer.Server.Listed` | version2.0/server.cpp:90-192 | after any sequence of handlers the real list is, in order, what the run theorem says |
| `TimerServer.Server.HungUp` | version2.0/server.cpp:90-93 | a hang-up leaves the timers alone |
| `TimerServer.Server.AddLast` | version2.0/timer/lst_timer.cpp:21-27 | a timer due last never takes the head-insert branch |
| `TimerServer.Server.AdjustToLast` | version2.0/timer/lst_timer.cpp:31-48 | a timer that became the last to be due moves to the end |
| `TimerServer.Server.Refresh` | version2.0/server.cpp:162-167 | a transfer gives the timer a new deadline and moves it to the end |
| `TimerServer.Server.Forget` | version2.0/server.cpp:168-173 | a failed transfer removes exactly its timer |
| `TimerServer.Server.DealEvent` | version2.0/server.cpp:157-192 | for every open descriptor, its timer is listed and refreshed or removed, and the timer objects are the list of the run with that event; it stays open exactly when the transfer succeeds |
| `TimerServer.Server.TimerHandler` | version2.0/server.cpp:116-119 | the connections due are closed, the longest inactive first |
| `AsyncLog.LogConservation` | version3.0/base/AsyncLogging.cpp:27-110 | over all interleavings, the messages accepted are those of all batches, the filled buffers and the current one, in append order; the file is the text of whole messages, and these ++ the unwritten part of the batch are the messages of every batch, cut to two buffers where it exceeded 25 |
| `AsyncLog.FileIsWholeMessages` | version3.0/base/AsyncLogging.cpp:88-91 | no message is split: the file is the text of a beginning of the messages kept, and the rest of them is what is still to be written |
| `AsyncLog.StepConserves` | version3.0/base/AsyncLogging.cpp:27-110 | each step keeps that account, and the file grows by whole messages |
| `AsyncLog.NothingDropped` | version3.0/base/AsyncLogging.cpp:77-86 | unless a batch exceeded 25 buffers nothing is dropped |
| `AsyncLog.KeptMeans` | version3.0/base/AsyncLogging.cpp:77-86 | of more than 25 buffers the first two are kept, by index; fewer are kept as they are |
| `AsyncLog.KeptBatchByBatch` | version3.0/base/AsyncLogging.cpp:77-91 | over a run, what is filed or still to be written of a batch b is b[0] ++ b[1] if it had more than 25 buffers, and all of it otherwise |
| `AsyncLog.BatchInHand` | version3.0/base/AsyncLogging.cpp:68-91 | the batch in hand is the one swapped out last, cut to those two buffers once the excess is dropped |
| `AsyncLog.AcceptedIffShort` | version3.0/base/LogStream.h:20-25 | a message is accepted if and only if it has fewer than four million characters |
| `AsyncLog.RunsKeepInv` | version3.0/base/AsyncLogging.cpp:54-75 | every reachable state: a missing spare buffer means a queued one, and the backend holds its two empty buffers whenever it waits |
| `AsyncLogging.AsyncLogging.constructor` | version3.0/base/AsyncLogging.cpp:10-52 | the four first buffers are different objects and empty |
| `AsyncLogging.AsyncLogging.TakeSpare` | version3.0/base/AsyncLogging.cpp:34-37 | the spare buffer, or a new one, that no other slot holds |
| `AsyncLogging.AsyncLogging.Rotate` | version3.0/base/AsyncLogging.cpp:32-37 | the full buffer is queued and replaced |
| `AsyncLogging.AsyncLogging.Append` | version3.0/base/AsyncLogging.cpp:27-41 | append on the real buffers is the abstract step, and no buffer gets into two slots |
| `AsyncLogging.AsyncLogging.Swap` | version3.0/base/AsyncLogging.cpp:54-75 | the asserts on both empty buffers hold, and right after the swap producers hold two different empty buffers |
| `AsyncLogging.AsyncLogging.Drop` | version3.0/base/AsyncLogging.cpp:77-86 | of more than 25 buffer objects the first two stay, and otherwise all |
| `AsyncLogging.AsyncLogging.Write` | version3.0/base/AsyncLogging.cpp:88-91 | the file grows by one buffer's text |
| `AsyncLogging.AsyncLogging.TakeBack` | version3.0/base/AsyncLogging.cpp:100-102 | a written buffer comes back empty and unshared |
| `AsyncLogging.AsyncLogging.Refill` | version3.0/base/AsyncLogging.cpp:93-112 | both asserts hold, and the backend has two different empty buffers again |
| `AsyncLogging.AsyncLogging.Perform` | version3.0/base/AsyncLogging.cpp:27-112 | every step on the objects is the abstract step and keeps every buffer in one slot |
| `AsyncLogging.Follow` | version3.0/base/AsyncLogging.cpp:27-112 | every interleaving can be carried out on the objects |
| `AsyncLogging.Run` | version3.0/base/AsyncLogging.cpp:27-112 | what it leaves in the file is the text of whole messages, and what the conservation law says of them |
| `EventLoop.NoLostWakeup` | version3.0/net/EventLoop.cpp:64-110 | in every reachable state where the loop is about to block with tasks pending, an edge of a positive eventfd counter waits or a producer stands between push and wakeup |
| `EventLoop.StepKeepsAnnounced` | version3.0/net/EventLoop.cpp:64-110 | each step keeps it |
| `EventLoop.ExactlyOnceInOrder` | version3.0/net/EventLoop.cpp:99-110 | tasks executed ++ rest of the batch ++ pending is the enqueue order, at every step |
| `EventLoop.SwapCovers` | version3.0/net/EventLoop.cpp:99-108 | what was queued before a swap is executed or in the batch after it |
| `EventLoop.RoundRunsEverything` | version3.0/net/EventLoop.cpp:87-110 | back at poll after a swap, everything queued before the round has run |
| `EventLoop.PhaseNeedsSwap` | version3.0/net/EventLoop.cpp:88-106 | between the return of poll and the next one lies a swap |
| `EventLoop.BackAtPollAllHaveRun` | version3.0/net/EventLoop.cpp:87-110 | so at poll again, everything queued before poll returned has run |
| `EventLoop.EventLoop.QueueInLoop` | version3.0/net/EventLoop.cpp:64-71 | the push, and that wakeup follows exactly for other threads and while functors run |
| `EventLoop.EventLoop.Wakeup` | version3.0/net/EventLoop.cpp:73-79 | the counter grows by one, unless it is full |
| `EventLoop.EventLoop.PollReturns` | version3.0/net/EventLoop.cpp:88-90 | the step in which epoll_wait returns |
| `EventLoop.EventLoop.HandleRead` | version3.0/net/EventLoop.cpp:49-57 | the read empties the counter |
| `EventLoop.EventLoop.BeginPendingFunctors` | version3.0/net/EventLoop.cpp:92-101 | the flag is set before the swap |
| `EventLoop.EventLoop.SwapFunctors` | version3.0/net/EventLoop.cpp:103-106 | the batch is what was pending |
| `EventLoop.EventLoop.RunFunctor` | version3.0/net/EventLoop.cpp:108 | the next task of the batch runs |
| `EventLoop.EventLoop.EndPendingFunctors` | version3.0/net/EventLoop.cpp:109-110 | the flag is cleared when the batch is done |
| `EventLoop.EventLoop.HandleExpired` | version3.0/net/EventLoop.cpp:94 | back to poll |
| `EventLoop.EventLoop.Perform` | version3.0/net/EventLoop.cpp:49-110 | every step the run allows can be taken on the object, which stays where its history leads |
| `EventLoop.Replay` | version3.0/net/EventLoop.cpp:49-110 | every interleaving can be carried out on the object; its fields hold the tasks queued, in order, and no wakeup is lost |
| `TimerClock.NeverEarly` | version3.0/net/Timer.cpp:6-39 | a node tests expired only after its timeout, however often the clock has wrapped |
| `TimerClock.ExactWithinWindow` | version3.0/net/Timer.cpp:29-39 | within the window it was made in a node tests expired exactly from its deadline on |
| `TimerClock.ExpiresAtAllIff` | version3.0/net/Timer.cpp:8-12 | a node tests expired at some time at all if and only if its deadline lies in the window it was made in |
| `TimerClock.NeverExpires` | version3.0/net/Timer.cpp:56-67 | a keep-alive node armed one minute before the wrap never tests expired, against the comment that a node goes by its timeout at the latest |
| `TimerQueue.TimerNode.IsValid` | version3.0/net/Timer.cpp:29-39 | a node found expired is marked deleted |
| `TimerQueue.TimerManager.OneLiveNode` | version3.0/net/HttpData.h:78-81 | a connection is held by at most one live node, the one its timer_ points to and its last arming made |
| `TimerQueue.TimerManager.WaitsWithOneNode` | version3.0/net/HttpData.cpp:282-310 | a connection that waits in epoll and whose peer still sends is held by exactly one live node |
| `TimerQueue.TimerManager.HalfClosedHasNone` | version3.0/net/HttpData.cpp:311-313 | one whose peer has stopped sending is held by none, so no timer will close it |
| `TimerQueue.TimerManager.Handle` | version3.0/net/Channel.h:63-68 | when a handler of a waiting connection is called, its timer stays and the invariant is kept |
| `TimerQueue.TimerManager.SeparateTimer` | version3.0/net/HttpData.cpp:146-153 | the node gives up its connection and no live node holds it any more; other nodes stay |
| `TimerQueue.TimerManager.AddTimer` | version3.0/net/Timer.cpp:50-54 | the queue invariant survives if and only if no live node held the connection |
| `TimerQueue.TimerManager.NewEvent` | version3.0/net/HttpData.cpp:614-617 | the first arming keeps the invariant |
| `TimerQueue.TimerManager.HandleConn` | version3.0/net/HttpData.cpp:282-318 | the old node is given up; the connection is closed if and only if there is an error, or its peer has stopped sending and no output is requested; one that is up is re-armed for five minutes if it is kept alive, half of that if it waits for nothing, two seconds otherwise |
| `TimerQueue.TimerManager.Pop` | version3.0/net/Timer.cpp:15-17 | a popped node closes the connection it still holds, and no other |
| `TimerQueue.TimerManager.Examine` | version3.0/net/Timer.cpp:71-78 | the top goes exactly when deleted or expired |
| `TimerQueue.TimerManager.Top` | version3.0/net/Timer.h:32-37 | the top's deadline is not after any other's |
| `TimerQueue.TimerManager.Sweep` | version3.0/net/Timer.cpp:71-78 | each round keeps what has been swept: dead nodes, the connections of the due ones closed, all others unchanged |
| `TimerQueue.TimerManager.HandleExpiredEvent` | version3.0/net/Timer.cpp:69-80 | no due node is left, and the connections closed are those of exactly the live nodes due, each by the node of its last arming, by deadline and never early; every other connection keeps its state, among them the half-closed ones that wait |
| `HeaderParser.BlockParses` | version3.0/net/HttpData.cpp:397-483 | every header block (line breaks, one or more printed fields, CRLF, any rest) is accepted, its fields added, and the rest left without its first character |
| `HeaderParser.AcceptedIsBlock` | version3.0/net/HttpData.cpp:397-483 | whatever is accepted is such a block, and the headers and the text left are those of that block |
| `HeaderParser.AcceptsExactlyBlocks` | version3.0/net/HttpData.cpp:477-480 | success if and only if the buffer holds a complete block |
| `HeaderParser.AnswersMean` | version3.0/net/HttpData.cpp:397-483 | of a first call: success is a complete block, again is a text that is none yet but has a continuation that is one, error is a text without such a continuation, and nothing outside the buffer is read |
| `HeaderParser.WhatStays` | version3.0/net/HttpData.cpp:397-482 | whatever a first call answers, the headers it has added are those of whole fields at the beginning; an error leaves the buffer, and again leaves the text from the first key or from the line feed of the last whole field on |
| `HeaderParser.RunExtends` | version3.0/net/HttpData.cpp:403-474 | more text does not take back an error, and a scan that came to the end of the text goes on from its state |
| `HeaderParser.AgainCanBeCompleted` | version3.0/net/HttpData.cpp:481-482 | every text for which the answer is again is completed by what its state lacks, and nothing is left |
| `HeaderParser.SecondCallIsRightIff` | version3.0/net/HttpData.cpp:399-400 | after it has asked for more, a second call on the rest agrees with one call on the whole text for every continuation if and only if only line breaks had arrived |
| `HeaderParser.NoKeyNoSuccess` | version3.0/net/HttpData.cpp:399-400 | a call that begins inside a field never succeeds |
| `HeaderParser.CompletedTwiceDiffers` | version3.0/net/HttpData.cpp:481-482 | outside the start state the two calls disagree on the very text that completes the block |
| `HeaderParser.FieldInTwoParts` | version3.0/net/HttpData.cpp:445-446 | a header that arrives as `k: v` and the rest makes the second call take a substring from before the buffer |
| `HeaderParser.LastDecides` | version3.0/net/HttpData.cpp:445-448 | of several fields with one key the last decides |
| `HeaderParser.OthersKept` | version3.0/net/HttpData.cpp:445-448 | a key that no field has keeps its value |
| `HeaderParser.ReadField` | version3.0/net/HttpData.cpp:412-458 | a printed field is read in one go from the start or after a line |
| `HeaderParser.RunAccounts` | version3.0/net/HttpData.cpp:403-474 | at every point the text read is line breaks, whole fields and part of one more, and exactly the whole ones are in the headers |
| `HeaderParser.HttpData.ParseHeaders` | version3.0/net/HttpData.cpp:397-483 | in whatever state the call begins, the loop over the object's fields answers, and leaves buffer, state and headers, as the automaton does |
| `OutputPath.Writen` | version3.0/net/Util.cpp:120-146 | the bytes sent are the first ones, as many as the answers let through; the buffer keeps the rest, or all of it after an error |
| `OutputPath.SendMeans` | version3.0/net/Util.cpp:125-140 | all bytes go out that the answers before the first EAGAIN or error let through, up to what there is; it fails exactly when an error comes before all is sent |
| `OutputPath.TotalConcat` | version3.0/net/Util.cpp:137 | what several answers let through is the sum |
| `OutputPath.DataConcat` | version3.0/net/Util.cpp:59-62 | what several reads deliver is what each delivers, in order |
| `OutputPath.DataOne` | version3.0/net/Util.cpp:59-62 | a read delivers its bytes; an interrupted, blocked or failed one delivers nothing |
| `OutputPath.ChunkLies` | version3.0/net/Util.cpp:59-62 | every chunk lies behind the chunks before it |
| `OutputPath.ReadN` | version3.0/net/Util.cpp:41-66 | the buffer grows by exactly what the reads delivered up to the first EAGAIN, error or end |
| `OutputPath.WritenConserves` | version3.0/net/Util.cpp:141-144 | bytes sent ++ remaining buffer is the old buffer if and only if a partial sum is not taken for the whole by the int comparison; below 4 GiB it never is |
| `OutputPath.LossySizes` | version3.0/net/Util.cpp:141-144 | the buffer lengths that can lose bytes are exactly those of 4 GiB or more whose low 32 bits are a non-negative int |
| `OutputPath.OutputConservation` | version3.0/net/HttpData.cpp:270-280 | over every run, what was sent is a beginning of everything appended and, without an error, the buffer is the rest |
| `OutputPath.ConservedIffNeverForgets` | version3.0/net/HttpData.cpp:270-280 | and this holds of an error-free run only if no length was misjudged |
| `OutputPath.SmallRunsNeverForget` | version3.0/net/Util.cpp:141-144 | no run of less than 4 GiB misjudges one |
| `OutputPath.AppendedIsReplies` | version3.0/net/HttpData.cpp:155-245 | over every run, what is appended is every reply, once and in order, and nothing after the peer has stopped sending |
| `OutputPath.WriteSends` | version3.0/net/HttpData.cpp:270-280 | a write sends what writen sends and leaves the rest, or all of it after an error |
| `OutputPath.ReadThenSettle` | version3.0/net/HttpData.cpp:155-318 | of a read on a connection that is up and the handleConn after it: when there is an error, when it is closed or half closed, when input is asked for, what is appended and what is sent |
| `OutputPath.ReadAfterHangUp` | version3.0/net/HttpData.cpp:161-164 | after the peer has stopped sending a read appends nothing |
| `OutputPath.SettleClosesIff` | version3.0/net/HttpData.cpp:285-317 | handleConn closes a connection if and only if there is an error, or its peer has stopped sending and no output is requested |
| `OutputPath.ClosingClientIsClosed` | version3.0/net/HttpData.cpp:314-317 | the run of a client that simply closes |
| `Connection.ConcludeMeans` | version3.0/net/HttpData.cpp:282-318 | when handleConn closes, when it only sets the mask, and that a connection that is up asks for output exactly when a handler has requested it and else for input |
| `OutputPath.PendingOutputIsRegistered` | version3.0/net/HttpData.cpp:270-318 | in every run, a connection that epoll waits on and whose peer still sends is without error and registered for something; whenever bytes are left it is registered for output and not disarmed |
| `OutputPath.DeafIff` | version3.0/net/Channel.h:52-62 | such a connection is disarmed if and only if its first and only report was EPOLLHUP or EPOLLERR: it was registered for one report, and no handler registers it again |
| `OutputPath.FirstReportCanDeafen` | version3.0/net/Channel.h:52-62 | that run exists and leaves a connected, waiting connection without error disarmed |
| `OutputPath.RegisteredAfterSettle` | version3.0/net/HttpData.cpp:285-313 | with bytes left, epoll will report output after handleConn if and only if the connection is still up or output was registered before: the mask of a half-closed one is not passed on |
| `OutputPath.HalfClosedWaits` | version3.0/net/HttpData.cpp:311-313 | a run in which the reply to a half-closed connection waits for an event that epoll will never report |
| `OutputPath.HttpData.Report` | version3.0/net/EpollPoller.cpp:83-90 | the run gains a report; a mask for one report is used up |
| `OutputPath.HttpData.Flush` | version3.0/net/HttpData.cpp:270-280 | nothing after an error or a close; otherwise the buffer is sent as far as it goes and output requested while bytes are left |
| `OutputPath.HttpData.HandleWrite` | version3.0/net/HttpData.cpp:270-280 | the run gains a write, what writen sends leaves the buffer, and while bytes are left output is requested |
| `OutputPath.HttpData.Consume` | version3.0/net/HttpData.cpp:157-245 | a reply goes behind what is in the buffer, and conservation is kept |
| `OutputPath.HttpData.HandleRead` | version3.0/net/HttpData.cpp:155-268 | the run gains a read, and while bytes are left output is requested |
| `OutputPath.HttpData.HandleConn` | version3.0/net/HttpData.cpp:282-318 | the connection is closed if and only if there is an error, or its peer has stopped sending and no output is requested; one that stays up is registered and armed, for output if bytes are left |
| `OutputPath.HttpData.HangUp` | version3.0/net/Channel.h:54-62 | the run gains an event that calls no handler of the connection |
| `OutputPath.HttpData.HandleClose` | version3.0/net/HttpData.cpp:607-612 | the connection is closed for good |
| `OutputPath.HttpData.Perform` | version3.0/net/HttpData.cpp:155-318 | every step the run allows can be taken on the object, which stays where its history leads |
| `OutputPath.Replay` | version3.0/net/HttpData.cpp:155-318 | every run can be carried out on the object, and conservation and registration hold of its fields |
| `ThreadPool.SemaphoreCounts` | version2.0/threadpool/threadpool.h:64-98 | in every reachable state semaphore + woken workers + producers before their post is the queue length; a woken worker finds a request and the queue holds at most max + 1 |
| `ThreadPool.QueueReachesMaxPlusOne` | version2.0/threadpool/threadpool.h:66 | max + 1 is really reached |
| `ThreadPool.EachRequestOnce` | version2.0/threadpool/threadpool.h:83-98 | requests taken ++ queued is the accepted order, and every request taken is held by exactly one worker or has been processed |
| `ThreadPool.ThreadPool.Push` | version2.0/threadpool/threadpool.h:64-71 | refused exactly when the queue is longer than the limit |
| `ThreadPool.ThreadPool.SemPost` | version2.0/threadpool/threadpool.h:72 | the post of an accepted request |
| `ThreadPool.ThreadPool.SemWait` | version2.0/threadpool/threadpool.h:86 | a wait that returns |
| `ThreadPool.ThreadPool.Pop` | version2.0/threadpool/threadpool.h:87-95 | the branch for an empty queue is never taken; the oldest request is removed |
| `ThreadPool.ThreadPool.RunRequest` | version2.0/threadpool/threadpool.h:96-97 | a null request is skipped |
| `ThreadPool.ThreadPool.Perform` | version2.0/threadpool/threadpool.h:64-98 | every step the run allows can be taken on the object, which stays where its history leads |
| `ThreadPool.Replay` | version2.0/threadpool/threadpool.h:64-98 | every interleaving can be carried out on the object; its fields hold each accepted request once, in order, and its semaphore counts its queue |
| `BlockQueue.RunInOrder` | version2.0/logger/block_queue.h:126-159 | any sequence of calls is first in, first out and never exceeds the size; only clear discards |
| `BlockQueue.AcceptedIsPushed` | version2.0/logger/block_queue.h:126-139 | over every run in which only the calls push, what was accepted is, in order, the items of exactly the pushes answered true |
| `BlockQueue.PushPutsLast` | version2.0/logger/block_queue.h:126-139 | a push answers true exactly while there is room, and then its item is the last; else nothing changes |
| `BlockQueue.PopTakesFirst` | version2.0/logger/block_queue.h:154-158 | a pop of a queue that is not empty takes its first item at once |
| `BlockQueue.PopFindsItem` | version2.0/logger/block_queue.h:145-158 | a pop goes on waiting and hands out the first item there after a wait |
| `BlockQueue.PopGivesUp` | version2.0/logger/block_queue.h:148-152 | and hands out nothing when a wait fails before |
| `BlockQueue.HandsOutInOrder` | version2.0/logger/block_queue.h:141-159 | while nobody clears the queue or pops during the waits, the items handed out are the first ones accepted |
| `BlockQueue.PopWaitingInOrder` | version2.0/logger/block_queue.h:141-159 | what a pop hands out is the item that leaves the queue last, the only one if nobody else pops; it hands out nothing when a wait fails, and else only on an empty queue |
| `BlockQueue.FalseBesideItemsIff` | version2.0/logger/block_queue.h:167-173 | a timed pop answers false beside items exactly when the queue was empty, the wait timed out, and others had put items there meanwhile |
| `BlockQueue.TimesOutBesideItem` | version2.0/logger/block_queue.h:167-173 | such a pop |
| `BlockQueue.RingPush` | version2.0/logger/block_queue.h:134-136 | writing the next slot appends to the ring |
| `BlockQueue.RingPop` | version2.0/logger/block_queue.h:154-156 | advancing the front removes the ring's first element |
| `BlockQueue.BlockQueue.PushItem` | version2.0/logger/block_queue.h:126-139 | push on the circular array, element j at (m_front+1+j) mod max: it answers false exactly when the queue is full, and otherwise the item is the last one there |
| `BlockQueue.BlockQueue.PopItem` | version2.0/logger/block_queue.h:141-159 | pop is pop on the bounded sequence, whatever other threads push and pop while it waits |
| `BlockQueue.BlockQueue.PopItemTimed` | version2.0/logger/block_queue.h:161-188 | the timed pop is pop on the bounded sequence with one wait, whatever other threads push and pop before it returns or times out |
| `BlockQueue.BlockQueue.Clear` | version2.0/logger/block_queue.h:53-59 | clear empties the sequence |
| `BlockQueue.BlockQueue.Full` | version2.0/logger/block_queue.h:62-70 | full is a full sequence |
| `BlockQueue.BlockQueue.Empty` | version2.0/logger/block_queue.h:73-81 | empty is the empty sequence |
| `BlockQueue.BlockQueue.Size` | version2.0/logger/block_queue.h:108-114 | the number of elements |
| `BlockQueue.BlockQueue.Back` | version2.0/logger/block_queue.h:96-105 | the element pushed last |
| `BlockQueue.BlockQueue.Replay` | version2.0/logger/block_queue.h:53-188 | every sequence of calls gets the answers of the bounded sequence |
| `Decimal.NotationReadsBack` | version3.0/base/LogStream.cpp:16-33 | the notation of every integer is canonical and reads back to it |
| `Decimal.CanonicalIsNotation` | version3.0/base/LogStream.cpp:16-33 | and it is the only canonical string that does |
| `Decimal.NotationLength` | version3.0/base/LogStream.cpp:38-45 | 20 characters hold every 64-bit value, signed or unsigned |
| `LogStream.LastDigit` | version3.0/base/LogStream.cpp:20-24 | a truncating remainder, looked up around the middle of the digit table, is the last digit of negative values too |
| `LogStream.ReverseRange` | version3.0/base/LogStream.cpp:30 | the range is reversed and nothing else touched |
| `LogStream.WriteDigits` | version3.0/base/LogStream.cpp:17-24 | the loop writes the digits, last one first |
| `LogStream.WriteBackwards` | version3.0/base/LogStream.cpp:17-28 | digits and sign are the notation backwards, in at most 20 characters |
| `LogStream.Convert` | version3.0/base/LogStream.cpp:16-33 | the characters written are the notation of the value and a NUL, at most 21 in all |
| `LogStream.LogStream.FormatInteger` | version3.0/base/LogStream.cpp:38-45 | the notation is appended whole, or nothing when fewer than 32 characters are free |
| `LogStream.FixedBuffer.Append` | version3.0/base/LogStream.h:20-25 | text is appended whole and only if a free character is left |
| `LogStream.FixedBuffer.Add` | version3.0/base/LogStream.h:32 | characters written at the current position are accepted |
| `LogStream.FixedBuffer.Reset` | version3.0/base/LogStream.h:34 | the buffer is empty again |

## Left out

- HttpRequest.Process: ends with `Body` where parse_content would be called, because that function is empty (version2.0/http/http_conn.cpp:233), and with `Fault` where a request line without a blank makes the code write through a null pointer (line 149).
- HttpConn.HttpConn.Receive: stops at the verdict; do_request and its file system calls, and the response texts, are not modelled.
- HttpConn.HttpConn.Read: what recv delivers before it would block; a peer that hangs up or a failing recv, which only close the connection, are not modelled.
- ScatterWrite.HttpConn.Write: an int that overflows while it is counted up or down, which takes a response of 2 GiB or more, is not modelled; the cut of the sum itself to an int is.
- TimerList.SortTimerLst.AddTimer: takes timers that are there; the early returns for null arguments and the freeing of nodes are not modelled.
- TimerServer.Server.DealEvent: is about open descriptors, because epoll reports no others; a close by a worker thread (version2.0/http/http_conn.cpp:461-463) counts as a hang-up, and m_user_count is not modelled.
- AsyncLog.LogConservation: log file rotation and flush counting, and what remains in the buffers after stop(), are not modelled; running_ is taken to stay true.
- LogStream.FixedBuffer.Append: the conversion of a length of 2 GiB or more to int is not modelled.
- EventLoop.NoLostWakeup: quit() and the order in which poll() hands out other channels are not modelled; tasks are numbers, and what a task queues while it runs is a step of its own.
- TimerQueue.TimerManager.HandleExpiredEvent: reads the clock once per call, where the code reads it for every node; the inside of std::priority_queue is replaced by a search for the first deadline.
- HeaderParser.HttpData.ParseHeaders: a substring taken from before the buffer ends the call with the answer Undefined, and what it would do to the object is not modelled; parseURI is left out because its not-found tests never succeed (version3.0/net/HttpData.cpp:324-327).
- OutputPath.HttpData.Consume: takes the result of parsing as an input, appends replies and never replaces the buffer (the paths at version3.0/net/HttpData.cpp:530, 563 and 571 are left out), and leaves out the error page that handleError writes past the buffer.
- OutputPath.RegisteredAfterSettle: epoll_ctl does not fail.
- ThreadPool.SemaphoreCounts: sem_wait does not fail, m_stop stays false, and the creation of threads, with the exceptions it can throw, is not modelled.
- BlockQueue.BlockQueue.PushItem: answers true where the code falls off the end of a function that should return.
- `block_queue::front` reads the slot before the first element, which need not exist.
- Sockets, epoll, signals, mmap and stat, beyond the answers they give.
- Log formatting of other types, MIME types, error pages, start-up and arguments, the choice of a loop for a connection: each is settled by reading one function.
