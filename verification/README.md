# A verified model of the server components

The repository is a collection of Unix network programs. This project models the parts of it
that are data structures, resumable parsers and concurrent protocols, and proves what each of
them keeps over every run. Everything the kernel decides (what `recv`, `accept`, `epoll_wait`,
`select`, `fork`, `waitpid` and `time` return, and which thread runs next) is an input: a
parameter, a script of outcomes, or a step of a run.

Code that updates objects in place is modelled by classes and arrays with loops: the timer
list and the time wheel keep their `prev`/`next` links, the parser its buffer and indices, the
heap its array. Each such method is proved against a function on plain values, and the
properties that span several operations are proved about those functions and about runs of
them.

| file | what it models |
|---|---|
| `Chains.dfy` | doubly linked nodes, linking and unlinking |
| `TimerOrder.dfy`, `SortedTimerList.dfy` | the ascending timer list: its order, and its links |
| `WheelModel.dfy`, `HashedWheel.dfy` | the time wheel: its arithmetic, and its slot lists |
| `TimerSimulation.dfy` | list and wheel as two implementations of one deadline map |
| `TimeHeap.dfy` | the min-heap of timers with lazy deletion, with the bounds that its comments describe |
| `LiteralHeap.dfy` | the same heap with its indices exactly as written |
| `IdleServer.dfy` | the server that closes idle connections |
| `ThreadPool.dfy` | the pool's lock, semaphore and queue, as interleaved steps |
| `ConnectionOwnership.dfy` | one-shot epoll, main loop, queue and workers passing connections on |
| `HttpText.dfy`, `HttpLines.dfy`, `HttpRequest.dfy`, `HttpConn.dfy` | the resumable request parser |
| `Rio.dfy` | the robust I/O package and the echo loop |
| `BarrierMerge.dfy` | segment sorting, the barrier, the k-way merge |
| `RoundRobin.dfy` | the process pool's dispatcher |
| `ChatTable.dfy` | the chat server's swap-remove table with its pid index |
| `SelectPool.dfy` | the select-driven client pool |
| `CgiReader.dfy` | the incremental CRLF search of the CGI connection |

Three places where the code does less than its comments say are treated as results.

- Adjusting a list timer keeps the order if and only if the new expiry is not below the
  predecessor's (`TimerOrder.AdjustOrder`).
- The heap's sift leaves out the last cell, and insertion starts one cell too far. A tick then
  leaves at most one due timer behind, in the last cell, and `LiteralHeap.MissesExactly` says
  for which cells it does. Insertion reads through a null cell on an empty heap, writes
  beyond the array when it fills the last cell, and otherwise never fills the first free cell
  (`LiteralHeap.LiteralTimerHeap.AddTimer`).
- A request body that arrives in two reads is recognised if and only if the line scanner has
  not moved on in the first piece: that piece is empty, or begins with a CR or LF that does not
  begin a CR LF within it (`HttpRequest.BodyInTwoReads`).

## Model

| member | source | states |
|---|---|---|
| `Chains.Splice` | socket/timer/sigalrm_list_timer.h:54-57 | linking a node between neighbours turns one acyclic doubly linked chain into the chain with that node inserted |
| `Chains.Unsplice` | socket/timer/sigalrm_list_timer.h:147-148 | unlinking turns the chain into the chain without that node; the node's own links stay, so its old successor can still be reached through it |
| `TimerOrder.InsertKeepsOrder` | socket/timer/sigalrm_list_timer.h:48-70 | inserting before the first later expiry keeps the strict order by (expiry, time of last touch): equal expiries are served in order of last touch |
| `TimerOrder.RemoveKeepsOrder` | socket/timer/sigalrm_list_timer.h:124-150 | removal keeps that order |
| `TimerOrder.AdjustOrder` | socket/timer/sigalrm_list_timer.h:102-121 | adjusting keeps the order if and only if the timer is first or its new expiry is not below its predecessor's |
| `TimerOrder.AdjustIsReinsert` | socket/timer/sigalrm_list_timer.h:102-121 | under that condition adjusting equals removing and inserting anew, including the case where the code leaves the node in place |
| `SortedTimerList.SortTimerList.constructor` | socket/timer/sigalrm_list_timer.h:73 | a new list is well-formed and empty |
| `SortedTimerList.SortTimerList.AddAfter` | socket/timer/sigalrm_list_timer.h:48-70 | the search from a node onwards finds the place that the order calls for, and links there |
| `SortedTimerList.SortTimerList.AddTimer` | socket/timer/sigalrm_list_timer.h:86-99 | links, `head`, `tail` and order stay right whatever the place; a null timer changes nothing |
| `SortedTimerList.SortTimerList.DelTimer` | socket/timer/sigalrm_list_timer.h:124-150 | the node leaves the list and joins the freed ones, in all four cases; no freed node is in the list |
| `SortedTimerList.SortTimerList.Reinsert` | socket/timer/sigalrm_list_timer.h:109-120 | taking a node out and searching from its old successor equals removal and ordered insertion |
| `SortedTimerList.SortTimerList.AdjustTimer` | socket/timer/sigalrm_list_timer.h:102-121 | the links stay well-formed for every new expiry; the list is valid afterwards if and only if the order condition holds |
| `SortedTimerList.SortTimerList.PopHead` | socket/timer/sigalrm_list_timer.h:164-169 | the head is freed and the rest is a well-formed list, with `tail` meaningful only while there is a head |
| `SortedTimerList.SortTimerList.Tick` | socket/timer/sigalrm_list_timer.h:153-171 | exactly the due timers fire, in list order, and exactly they are freed |
| `WheelModel.PlaceIsRemaining` | socket/timer/time_wheel_timer.h:75-80 | slot and rotation carry the same information as the number of visits remaining: rotation * N + ((slot - current) mod N) |
| `WheelModel.TickLowersRemaining` | socket/timer/time_wheel_timer.h:113-141 | a tick fires the timers with nothing remaining and lowers every other timer's remaining visits by exactly one |
| `WheelModel.TickInventsNothing` | socket/timer/time_wheel_timer.h:113-141 | conversely, whatever fires or stays after a tick was there before, with one visit more to wait |
| `WheelModel.ServeStep` | socket/timer/time_wheel_timer.h:117-139 | serving one node in place is one step of the two functions that describe the whole visit |
| `HashedWheel.TimeWheel.constructor` | socket/timer/time_wheel_timer.h:52-56 | a new wheel has empty slots and stands at slot 0 |
| `HashedWheel.TimeWheel.AddTimer` | socket/timer/time_wheel_timer.h:70-94 | null exactly for negative timeouts, else a new node at the front of its slot, all slot lists well-formed and disjoint; slot and rotation make it wait for as many visits as there are whole slot intervals in the timeout, but at least one |
| `HashedWheel.TimeWheel.DelTimer` | socket/timer/time_wheel_timer.h:97-110 | removes that node from its slot and touches no other slot |
| `HashedWheel.TimeWheel.Visit` | socket/timer/time_wheel_timer.h:118-138 | one node is fired and unlinked, or loses a rotation; the walk goes on at the right successor |
| `HashedWheel.TimeWheel.ServeSlot` | socket/timer/time_wheel_timer.h:115-139 | the walk over the current slot fires the due timers in slot order and leaves the survivors, other slots untouched |
| `HashedWheel.TimeWheel.Tick` | socket/timer/time_wheel_timer.h:113-141 | the pointer-based tick is the tick of the value-level wheel |
| `TimerSimulation.WheelStep` | socket/timer/time_wheel_timer.h:70-141 | every wheel operation commutes with the deadline map: same firings, and every timer again where its deadline says |
| `TimerSimulation.WheelRefines` | socket/timer/time_wheel_timer.h:70-141 | over every run of adds, deletes and ticks the wheel refines the deadline map |
| `TimerSimulation.ListStep` | socket/timer/sigalrm_list_timer.h:86-171 | every list operation commutes with the deadline map, with the clock counting completed ticks |
| `TimerSimulation.ListRefines` | socket/timer/sigalrm_list_timer.h:86-171 | over every run the sorted list refines the deadline map |
| `TimerSimulation.WheelAndListAgree` | socket/timer/time_wheel_timer.h:70-141 | wheel and list fire the same set of timers in every step of every run |
| `TimerSimulation.DeadlineStands` | socket/timer/time_wheel_timer.h:70-141 | an added timer keeps its deadline until its tick has passed, whatever happens to the others |
| `TimerSimulation.FiresInTickTPlusOne` | socket/timer/time_wheel_timer.h:113-141 | a timer of t ticks fires in exactly the (t+1)-th tick after its insertion, whatever the current slot and the other timers |
| `TimerSimulation.FiresAfterItsSeconds` | socket/timer/time_wheel_timer.h:70-141 | in seconds: a timer left alone fires in the tick that n others precede since its insertion exactly if n is the number of whole slot intervals in its timeout, or 1 if there are none |
| `TimeHeap.SiftDownHeap` | socket/timer/time_heap_timer.h:51-65 | for any bound the sift restores heap order below the hole |
| `TimeHeap.SiftDownPermutes` | socket/timer/time_heap_timer.h:51-65 | for any bound the sift permutes the cells between hole and bound and no others |
| `TimeHeap.PercolateDown` | socket/timer/time_heap_timer.h:51-65 | the in-place loop with a moving hole computes the sift by swaps |
| `TimeHeap.BuildHeap` | socket/timer/time_heap_timer.h:94-98 | bottom-up construction with bound m makes a heap of the first m cells, a permutation, with the cells beyond untouched |
| `TimeHeap.SiftUpHeap` | socket/timer/time_heap_timer.h:117-123 | the rise of a new leaf restores heap order |
| `TimeHeap.PercolateUp` | socket/timer/time_heap_timer.h:117-123 | the in-place loop of add_timer computes the rise by swaps |
| `TimeHeap.RootIsMin` | socket/timer/time_heap_timer.h:135-138 | the root of a heap is a minimum of all its cells |
| `TimeHeap.TimerHeap.Resize` | socket/timer/time_heap_timer.h:68-75 | capacity doubles, contents and heap order stay |
| `TimeHeap.TimerHeap.AddTimer` | socket/timer/time_heap_timer.h:110-124 | the heap gains exactly that timer, growing when full; null changes nothing |
| `TimeHeap.TimerHeap.DelTimer` | socket/timer/time_heap_timer.h:127-132 | lazy deletion: the timer stays in the heap and is marked not to be called |
| `TimeHeap.TimerHeap.PopTimer` | socket/timer/time_heap_timer.h:141-150 | the heap loses exactly the root and is a heap again |
| `TimeHeap.TimerHeap.Tick` | socket/timer/time_heap_timer.h:153-167 | all due timers and no others are popped, in non-decreasing order of expiry; exactly the uncancelled ones among them are called |
| `LiteralHeap.LiteralBound` | socket/timer/time_heap_timer.h:94-98 | construction as written leaves its minimum at the root if and only if one of the given timers before the last does not exceed the last |
| `LiteralHeap.PopKeeps` | socket/timer/time_heap_timer.h:141-150 | pop_timer as written, from all cells but the last in order: loses exactly the root, again has all cells but the last in order, and leaves the new last cell as it was |
| `LiteralHeap.PopRoot` | socket/timer/time_heap_timer.h:141-150 | with four timers left or more its root is a minimum of all of them, even if the last cell was out of order before |
| `LiteralHeap.TickKeeps` | socket/timer/time_heap_timer.h:153-167 | tick as written loses no timer, pops only due ones, and leaves at most one due timer behind, in the last cell |
| `LiteralHeap.MissesExactly` | socket/timer/time_heap_timer.h:153-167 | tick as written misses a due timer if and only if a condition on the cells before it holds: last cell due under a root that is not, or the wrong arrangement of due and later timers among the three or four that remain |
| `LiteralHeap.ThreeLaterSuffice` | socket/timer/time_heap_timer.h:153-167 | nothing is missed when the root is due and three timers are not |
| `LiteralHeap.MissesSecond` | socket/timer/time_heap_timer.h:141-167 | three timers in heap order of which a tick pops the first and overlooks the due second |
| `LiteralHeap.LiteralBoundMissesTimer` | socket/timer/time_heap_timer.h:51-65 | two timers whose order construction as written does not repair, and the tick between them that overlooks the earlier; the intended bound repairs it |
| `LiteralHeap.OffPath` | socket/timer/time_heap_timer.h:117-123 | the rise of a new timer changes no cell off the way from its start to the root |
| `LiteralHeap.LiteralInsertLeavesHole` | socket/timer/time_heap_timer.h:115-123 | started at `++cur_size` the rise reads only filled cells and never changes the first free cell, so the counted cells have a hole if and only if that cell was empty |
| `LiteralHeap.LiteralFirstRead` | socket/timer/time_heap_timer.h:118-119 | the first cell read is empty if and only if the heap is |
| `LiteralHeap.LiteralFirstWrite` | socket/timer/time_heap_timer.h:113-123 | the first cell written is within the array if and only if the add does not fill the last cell, nor grows an array of one cell |
| `LiteralHeap.LiteralTimerHeap.FromArray` | socket/timer/time_heap_timer.h:87-99 | the array constructor as written: all cells but the last in order, the given timers and no others, with the exact condition for the root |
| `LiteralHeap.LiteralTimerHeap.PopTimer` | socket/timer/time_heap_timer.h:141-150 | the in-place code computes the pop that PopKeeps and PopRoot speak of |
| `LiteralHeap.LiteralTimerHeap.Tick` | socket/timer/time_heap_timer.h:153-167 | the loop computes the tick that MissesExactly speaks of, and calls exactly the popped timers that were not cancelled |
| `LiteralHeap.LiteralTimerHeap.AddTimer` | socket/timer/time_heap_timer.h:110-124 | exactly when add_timer as written reads through null, when it writes out of bounds, and what it leaves otherwise, the hole included |
| `IdleServer.OnAccept` | socket/timer/handling_inactive_link.cpp:121-135 | a new connection and its fresh timer join the end of the two lists that are in bijection |
| `IdleServer.OnData` | socket/timer/handling_inactive_link.cpp:171-175 | activity moves a connection and its timer to the end together, for every clock that does not go back |
| `IdleServer.OnHangUp` | socket/timer/handling_inactive_link.cpp:159-168 | a closed connection's timer is deleted with it and the others stay paired |
| `IdleServer.OnAlarm` | socket/timer/handling_inactive_link.cpp:55-68 | the handler closes the connections at the front whose lifetime is over, in order, and no others |
| `IdleServer.Handle` | socket/timer/handling_inactive_link.cpp:118-185 | every step of the loop keeps list, table and connections paired, so that every timer reached through the table is in the list and none of those is freed, and does what the recency list says |
| `IdleServer.Serve` | socket/timer/handling_inactive_link.cpp:112-186 | over every history the server closes what the recency model closes, and stops at the first batch end that has a SIGTERM before it in the steps, and nowhere else |
| `IdleServer.HistoryMeaning` | socket/timer/handling_inactive_link.cpp:112-186 | over every history the server's connections are those that ought to be open by last activity, told without timers or lists |
| `IdleServer.TickClosesExactlyTheIdle` | socket/timer/handling_inactive_link.cpp:182-185 | each tick closes exactly the connections idle for at least 3 * TIMESLOT seconds, in order of last activity, each once |
| `IdleServer.StopMeaning` | socket/timer/handling_inactive_link.cpp:148-149 | the stop flag is set exactly if a SIGTERM has arrived |
| `IdleServer.ClosedWhatWasAccepted` | socket/timer/handling_inactive_link.cpp:112-186 | over every history each descriptor was closed as often as it was accepted, but for the time that it is open now |
| `ThreadPool.StepPromised` | socket/pool/threadpool.h:78-113 | how each step changes queue length minus (semaphore + producers between push and post + workers between wait and pop): only a pop without a token, or a token without a job, changes it |
| `ThreadPool.RunKeepsInv` | socket/pool/threadpool.h:78-113 | in every interleaving, failed waits included: mutual exclusion, first-in first-out conservation, at most max_requests + 1 queued, and queue length never above what has been promised |
| `ThreadPool.RunIsExact` | socket/pool/threadpool.h:78-113 | while no wait has failed the queue length equals semaphore value + producers between push and post + workers between wait and pop |
| `ThreadPool.EmptyBranchUnreachable` | socket/pool/threadpool.h:103-106 | so a worker that holds the lock never meets an empty queue |
| `ThreadPool.FailedWaitMeetsEmptyQueue` | socket/pool/threadpool.h:101-106 | a run in which a failed wait does reach the empty-queue branch |
| `ThreadPool.QueuedWorkIsNeverStranded` | socket/pool/threadpool.h:99-113 | from every reachable state with a queued job and a worker, failed waits or not, the threads that are there can hand the head of the queue to a worker without any new request |
| `ThreadPool.AsleepMeansDrained` | socket/pool/threadpool.h:99-113 | with everybody idle or asleep and no unit in the semaphore, all accepted jobs have been handed out in order |
| `ThreadPool.HistoryGrows` | socket/pool/threadpool.h:85-108 | the records of accepted and popped jobs only ever grow |
| `ThreadPool.OneWorkerPerRequest` | socket/pool/threadpool.h:107-111 | no accepted job is ever in the hands of two workers, at the same or at different times |
| `ThreadPool.AcceptedIsAdmitted` | socket/pool/threadpool.h:80-88 | over every run the accepted jobs are exactly the submitted ones that met a queue of at most max_requests, in the order of those tests |
| `ThreadPool.AppendDecides` | socket/pool/threadpool.h:81-88 | a caller about to return false met a queue longer than max_requests; one about to return true did not, and its own job went to the end of the queue |
| `ThreadPool.QueueFills` | socket/pool/threadpool.h:81-85 | for every max_requests a run fills the queue to max_requests + 1 |
| `ThreadPool.FullQueueRefuses` | socket/pool/threadpool.h:81-84 | and the call after that is refused |
| `ConnectionOwnership.HandsStep` | socket/pool/main.cpp:93-121 | what each action does to the number of hands a connection is in: accept makes it one, close ends it from one, a refused append takes one away, everything else keeps it |
| `ConnectionOwnership.LateModfd` | socket/pool/http_conn.cpp:392-395 | the modfd after close_conn keeps ownership exclusive if and only if the descriptor was not accepted anew, or nobody but epoll holds it |
| `ConnectionOwnership.RunKeepsInv` | socket/pool/main.cpp:86-122 | over every run without an accept in that gap, an open connection is in at most one hand and a closed one in none |
| `ConnectionOwnership.OwnershipIsExclusive` | socket/pool/main.cpp:86-122 | so it is never in two of main loop, queue and worker at once, at most once in the queue, and armed only when none of them holds it |
| `ConnectionOwnership.ExactlyOneHand` | socket/pool/main.cpp:86-122 | in every run without an accept in the gap an open connection is in exactly one hand if none of its appends was refused, and in none, but still open, if one was |
| `ConnectionOwnership.AcceptInGapBreaksOwnership` | socket/pool/http_conn.cpp:392-395 | a run with an accept in the gap after which a connection is both queued and armed |
| `ConnectionOwnership.RefusedIsForgotten` | socket/pool/main.cpp:114 | a connection whose append was refused stays open and is never again armed, reported, queued or with a worker |
| `ConnectionOwnership.RefusalHappens` | socket/pool/main.cpp:114 | a run in which a refused append leaves an open connection in nobody's hand |
| `ConnectionOwnership.ArmedUntilReported` | socket/pool/http_conn.cpp:386-395 | after accept, or modfd by the main loop or a worker, a connection is armed, open and with nobody until epoll reports it |
| `ConnectionOwnership.ReportedBetweenPops` | socket/pool/main.cpp:86-122 | between two pops of one connection epoll has reported it and the main loop has then read from it and appended it |
| `ConnectionOwnership.InOrder` | socket/pool/main.cpp:93-121 | events are handled in the order reported, and connections processed in the order appended |
| `HttpLines.FindBreak` | socket/pool/http_conn.cpp:91-101 | the scan stops at the first line break character, or at the end |
| `HttpLines.StopsAtBreak` | socket/pool/http_conn.cpp:91-101 | that character is a CR or an LF, and neither was passed over |
| `HttpLines.LfAfterCrIsDead` | socket/pool/http_conn.cpp:101-106 | between calls the byte before the scan position is no CR, so the branch for an LF preceded by CR is never taken |
| `HttpLines.ParseLineScanned` | socket/pool/http_conn.cpp:89-111 | every call keeps: no unconsumed CR or LF between line start and scan position |
| `HttpLines.ParseLineAppend` | socket/pool/http_conn.cpp:89-111 | an accepted or rejected line does not depend on bytes that arrive later |
| `HttpLines.ParseLineResume` | socket/pool/http_conn.cpp:89-111 | an open line is taken up where it was left, with the same outcome as a single scan |
| `HttpLines.LineBadIsSticky` | socket/pool/http_conn.cpp:100-107 | a bad line stays bad at the same position for ever |
| `HttpLines.ScanIsSplit` | socket/pool/http_conn.cpp:89-111 | the in-place scanner accepts the lines of the plain byte stream, though it overwrites the consumed part |
| `HttpLines.SegmentationIndependent` | socket/pool/http_conn.cpp:201-204 | for every byte stream and every segmentation, the lines accepted and the first bad position are those of the whole stream |
| `HttpRequest.CutRequestLine` | socket/pool/http_conn.cpp:129-151 | an accepted request line has its cuts in order, and the path begins with a slash; RequestLineMeaning says which lines are accepted |
| `HttpText.EqNoCaseMeaning` | socket/pool/http_conn.cpp:134 | comparison without case identifies the 26 pairs of letters and nothing else |
| `HttpRequest.RequestLineMeaning` | socket/pool/http_conn.cpp:129-151 | a plain first line is accepted exactly if it is GET, blanks, a target, blanks and HTTP/1.1, in any case, where the target is a path from a slash on, at once or behind http:// and an authority without a slash; any other is answered with BAD_REQUEST |
| `HttpRequest.RequestLinePath` | socket/pool/http_conn.cpp:143-149 | the URL kept is the C string of exactly that path |
| `HttpRequest.ProcessResume` | socket/pool/http_conn.cpp:196-230 | a request that is not complete and not in its body is taken up where it was left, with the same outcome as parsing all bytes at once |
| `HttpRequest.ProcessAppend` | socket/pool/http_conn.cpp:196-230 | an answer once given, in the header part or for a body, does not depend on later bytes |
| `HttpRequest.ParsesHeaders` | socket/pool/http_conn.cpp:154-184 | printed headers are consumed to the blank line, and linger is set if and only if one of them asks for keep-alive |
| `HttpRequest.HeaderMeaning` | socket/pool/http_conn.cpp:165-183 | a header line sets linger exactly if it is Connection:, blanks and keep-alive in any case, sets the length exactly if it is Content-Length:, and leaves the URL alone |
| `HttpRequest.ParsesHeader` | socket/pool/http_conn.cpp:165-183 | one header line is consumed, with what it does to linger, length and host |
| `HttpRequest.HostMeaning` | socket/pool/http_conn.cpp:175-179 | the host is touched by Host: lines only |
| `HttpRequest.HostText` | socket/pool/http_conn.cpp:175-179 | and then points at the C string of the value behind the blanks |
| `HttpRequest.AtoiMeaning` | socket/pool/http_conn.cpp:174 | numbers are read through white space and a sign up to the first character that is no digit |
| `HttpRequest.AtoiNone` | socket/pool/http_conn.cpp:174 | without a digit there the number is 0 |
| `HttpRequest.ParsesPrinted` | socket/pool/http_conn.cpp:129-230 | a printed body-less GET, given at once, reaches do_request with its own path and linger flag, for origin-form and absolute-form targets |
| `HttpRequest.PrintThenParse` | socket/pool/http_conn.cpp:129-230 | the same however it is cut into segments, and before its last byte every answer is NO_REQUEST |
| `HttpRequest.WaitsForBody` | socket/pool/http_conn.cpp:201-223 | an incomplete body is scanned for lines, and the position it is measured from moves if and only if the scan gets past its first byte |
| `HttpRequest.BodyInTwoReads` | socket/pool/http_conn.cpp:187-193 | for all bytes: in one read a body is always recognised, with nothing else changed; in two, on its last byte, if and only if the first piece is empty or stuck at its first byte |
| `HttpRequest.StaysIncomplete` | socket/pool/http_conn.cpp:201-223 | a body of which too little follows the scan position is never recognised in that call, and the position never moves back |
| `HttpRequest.LengthRoundTrip` | socket/pool/http_conn.cpp:170-174 | a printed Content-Length is parsed to the number it was printed from |
| `HttpRequest.ReachesBody` | socket/pool/http_conn.cpp:154-161 | a printed head that announces a body leaves the parser at the first byte of the body, and it makes no difference whether body bytes came along with it |
| `HttpRequest.PrintedBodyInTwoReads` | socket/pool/http_conn.cpp:196-230 | the two-reads condition for whole printed requests |
| `HttpRequest.LateSecondByte` | socket/pool/http_conn.cpp:187-193 | a concrete request whose late second body byte is lost after a letter and found after a newline |
| `HttpConn.Connection.constructor` | socket/pool/http_conn.cpp:70-86 | a new connection is the parser's initial state |
| `HttpConn.Connection.Read` | socket/pool/http_conn.cpp:114-126 | all pending bytes that fit are appended in order, in whatever pieces they come; it succeeds if and only if the socket is sound and the buffer does not become full |
| `HttpConn.Connection.ParseLine` | socket/pool/http_conn.cpp:89-111 | the in-place scanner computes the value-level one |
| `HttpConn.Connection.ParseRequestLine` | socket/pool/http_conn.cpp:129-151 | cutting the line in the buffer is what the value-level parser says |
| `HttpConn.Connection.ParseHeaders` | socket/pool/http_conn.cpp:154-184 | the header branches update the fields as the value-level parser says |
| `HttpConn.Connection.ParseContent` | socket/pool/http_conn.cpp:187-193 | does the content turn of the value-level parser, and asks for more if and only if the body is incomplete |
| `HttpConn.Connection.ProcessRead` | socket/pool/http_conn.cpp:196-230 | the state machine on the mutable buffer computes the value-level parser, and ends |
| `HttpConn.Connection.Converse` | socket/pool/http_conn.cpp:114-230 | segments that are read in any pieces and parsed one by one leave the object in the state, and with the answer, that the segmented-run theorems speak of |
| `Rio.TakeLineIs` | socket/csapp/rio.c:82-101 | the reference line reader returns the longest prefix within the limit with no newline before its end |
| `Rio.Reader.constructor` | socket/csapp/rio.c:57-61 | a new reader has everything still to deliver |
| `Rio.Reader.Refill` | socket/csapp/rio.c:66-72 | retries through EINTR, loses no byte, reports end of file only at the end |
| `Rio.Reader.Read` | socket/csapp/rio.c:64-80 | like read, without interruptions: delivered bytes ++ buffered bytes ++ unread stream stay the same stream |
| `Rio.Reader.ReadLine` | socket/csapp/rio.c:83-101 | the line that an unbuffered reader would return: on to the first newline, to maxlen - 1 bytes or to the end, whichever is first, NUL-terminated unless the stream is at its end; maxlen 0 included |
| `Rio.Reader.ReadNb` | socket/csapp/rio.c:104-117 | exactly n bytes, or all there are |
| `Rio.ReadN` | socket/csapp/rio.c:8-22 | the same without a buffer, for every schedule of short reads and interruptions |
| `Rio.WriteN` | socket/csapp/rio.c:26-40 | all n bytes are written in order, or -1; always all of them if every call takes something or leaves EINTR in errno, a write that returns 0 included |
| `Rio.Session` | socket/csapp/rio.c:64-117 | any mix of line and byte reads through the buffer returns what an unbuffered reader of the stream would, and returned ++ remaining is the stream |
| `Rio.EchoLine` | socket/csapp/echoserver.c:39-42 | written ++ remaining stays the same, and something is consumed unless at end of file |
| `Rio.Echo` | socket/csapp/echoserver.c:33-43 | the loop ends and has written back exactly its input |
| `BarrierMerge.FindMin` | apue/pthread_barrier.c:43-49 | a minimum among the segment heads, equal ones to the lowest segment; found if and only if some head is below LONG_MAX |
| `BarrierMerge.TakeNext` | apue/pthread_barrier.c:43-51 | the position taken precedes, in stable order, everything not yet taken |
| `BarrierMerge.Merge` | apue/pthread_barrier.c:35-53 | for any number and length of segments the output lists all positions in stable order |
| `BarrierMerge.StableOrderSorts` | apue/pthread_barrier.c:35-53 | such an output is a sorted permutation of the input |
| `BarrierMerge.StableOrderIsUnique` | apue/pthread_barrier.c:35-53 | and it is the only one |
| `BarrierMerge.RunSoFar` | apue/pthread_barrier.c:27-33 | in every order of arrivals the segments of the threads already waiting are sorted and no value is lost |
| `BarrierMerge.BarrierThenMerge` | apue/pthread_barrier.c:68-75 | once all NTHR + 1 threads wait, all segments are sorted, and merging gives the original input in sorted order |
| `RoundRobin.Pool.FindLive` | socket/pool/processpool.h:283-287 | the search ends, passes only dead children, and ends on a dead one only if all are dead |
| `RoundRobin.Pool.Dispatch` | socket/pool/processpool.h:283-293 | picks the first live child cyclically from the counter and stops the pool exactly when there is none |
| `RoundRobin.Pool.Reap` | socket/pool/processpool.h:307-314 | marks the slot of the reaped child and no other |
| `RoundRobin.Pool.OnSigChld` | socket/pool/processpool.h:303-322 | marks all reaped children; the pool stops if and only if none is left |
| `RoundRobin.TurnOrder` | socket/pool/processpool.h:283-293 | since the last dispatch to a child, each other live child is either unserved and ahead of it, or served once and behind it |
| `RoundRobin.RoundRobinIsFair` | socket/pool/processpool.h:283-322 | between two consecutive dispatches to one child every other child alive throughout gets exactly one, whoever dies meanwhile |
| `ChatTable.SwapRemoveIs` | socket/ipc/shm.c:270 | swap-removal loses the removed user and nobody else and keeps pids and pipes distinct |
| `ChatTable.Table.Accept` | socket/ipc/shm.c:214-249 | the new child takes the next dense slot; a full table or a failed fork changes nothing that is live |
| `ChatTable.Table.Reap` | socket/ipc/shm.c:261-272 | the table stays dense with every live pid indexed to its own slot, even where the dead pid's entry is left stale |
| `ChatTable.Table.Broadcast` | socket/ipc/shm.c:297-313 | each other live child is notified exactly once, the sender never |
| `ChatTable.TableHoldsMembers` | socket/ipc/shm.c:203-275 | over every run the table holds exactly the members, told without slots |
| `SelectPool.FillSlot` | socket/csapp/echoserver_select_event.c:38-41 | using a free slot adds exactly that descriptor and keeps the used ones distinct |
| `SelectPool.FreeSlot` | socket/csapp/echoserver_select_event.c:68-70 | freeing a slot removes exactly that descriptor |
| `SelectPool.Pool.constructor` | socket/csapp/echoserver_select_event.c:23-30 | a new pool watches the listening descriptor only |
| `SelectPool.Pool.AddClient` | socket/csapp/echoserver_select_event.c:33-48 | succeeds if and only if a slot is free, and takes the first; maxi and maxfd grow exactly as needed; the watched set stays listening descriptor plus distinct clients |
| `SelectPool.Pool.ServeSlot` | socket/csapp/echoserver_select_event.c:59-71 | a client at end of file leaves slot and watched set together, any other stays |
| `SelectPool.Pool.VisitSlot` | socket/csapp/echoserver_select_event.c:57-72 | `nready` keeps counting the ready clients not yet visited |
| `SelectPool.Pool.CheckClients` | socket/csapp/echoserver_select_event.c:51-74 | despite the early exit each ready client is served exactly once and none is skipped |
| `SelectPool.Pool.Sweep` | socket/csapp/echoserver_select_event.c:56-73 | the loop leaves off only past the last used slot or when no ready client is left, with the round's bookkeeping intact |
| `SelectPool.Pool.Select` | socket/csapp/echoserver_select_event.c:90-97 | after the accept, `nready` is the number of ready clients, and the watched set has gained at most the new one |
| `SelectPool.Pool.Turn` | socket/csapp/echoserver_select_event.c:89-99 | a whole turn of the main loop serves every ready client once and ends watching the old clients, plus the accepted one, minus those that hung up |
| `CgiReader.VerdictMeaning` | socket/pool/cgi_server.cpp:57-63 | the reference verdict: found at the first CRLF of the stream within the buffer, waiting if and only if there is room, no CRLF and no end |
| `CgiReader.VerdictStands` | socket/pool/cgi_server.cpp:43-64 | a decision once taken is not changed by later bytes |
| `CgiReader.CgiConn.Recv` | socket/pool/cgi_server.cpp:44-55 | bytes are appended in order and the read index stays below BUFFER_SIZE |
| `CgiReader.CgiConn.Scan` | socket/pool/cgi_server.cpp:58-60 | scanning only the new bytes and the one before them finds the first CRLF of all bytes |
| `CgiReader.CgiConn.Process` | socket/pool/cgi_server.cpp:40-64 | one call decides by the bytes buffered before and arriving during it, however they are chunked, and cuts the file name before its CR |
| `CgiReader.CgiConn.Converse` | socket/pool/cgi_server.cpp:40-64 | over any number of calls and any chunking, CR and LF in different reads or calls included, the outcome is the verdict on the concatenated bytes |

## Left out

- Sockets, epoll, select, fork, waitpid, signals, alarms and mmap themselves: only their outcomes appear. Nothing printed is modelled.
- SortedTimerList.SortTimerList.AddTimer: the separate pointer assignments of the cases "empty list", "new head", "middle" and "end" go through one shared linking method with the same effect; the callback is not re-entrant.
- SortedTimerList.SortTimerList.Tick: the time is a parameter; callbacks that change the list during the tick are not modelled.
- HashedWheel.TimeWheel.AddTimer: integers are unbounded; no int timeout overflows in this arithmetic. Callbacks do not re-enter the wheel.
- TimeHeap.TimerHeap.AddTimer: models the intended index `cur_size++`; LiteralHeap.LiteralTimerHeap.AddTimer says what the index as written does. A capacity of zero is excluded, since doubling it gives no room.
- TimeHeap.TimerHeap.PopTimer: models the intended bound `cur_size`; LiteralHeap.LiteralTimerHeap.PopTimer has the bound as written. Popped timers are returned instead of deleted.
- TimeHeap.TimerHeap.Tick: models the intended bound; LiteralHeap.LiteralTimerHeap.Tick has the bound as written.
- LiteralHeap.LiteralTimerHeap.FromArray: the exception for a capacity below the number of timers, and a capacity of zero, are excluded.
- LiteralHeap.LiteralTimerHeap.AddTimer: describes one call from a heap without holes; a freed timer that a pop left behind in a cell counts as a timer there, though reading it is undefined.
- IdleServer.Handle: failed accepts and descriptors at or above FD_LIMIT are excluded, as the program does not check for them; data contents are not modelled. The global epoll descriptor is shadowed by a local one in the source, which does not matter here since closing ends the registration.
- ThreadPool.RunKeepsInv: pool construction, destruction and `m_stop` are not modelled; a null job is a worker step without effect.
- ConnectionOwnership.RunKeepsInv: the unsynchronised user count and the "server busy" refusal are not modelled.
- HttpConn.Connection.ParseRequestLine: on BAD_REQUEST the partial cuts made in the buffer are not modelled, since the buffer is not parsed again.
- HttpConn.Connection.ParseContent: the NUL written after a complete body is not modelled.
- HttpRequest.CutRequestLine: characters stand for bytes, letter case is ASCII, and `atoi` does not overflow.
- HttpConn.Connection.ProcessRead: `do_request` is represented by its being reached (GET_REQUEST); the file lookup, `write`, `add_response` and `process_write` are left out.
- Rio.Echo: without hard errors; after one, the unsigned length of the source would make it write SIZE_MAX bytes.
- BarrierMerge.Merge: values are below LONG_MAX; with larger ones the scan may find no head (FindMin says when). The sort inside a thread is any sort of its segment.
- ChatTable.Table.Accept: shared-memory segments, the children's own indices and the child process are not modelled.
- SelectPool.Pool.Turn: select and accept succeed, and accept returns a positive descriptor that is not watched. The bytes echoed are not modelled, since the reader is copied and its buffer never written back.
- RoundRobin.Pool.OnSigChld: SIGTERM and SIGINT handling and the children's side are not modelled.
- CgiReader.CgiConn.Process: the file check and running the CGI program are not modelled; a recv with no room returns 0, which the program takes for the end.
- Destructors, `main` set-up code and command lines throughout.
- socket/http/http_readParse.cpp, socket/io_multiplexing, socket/thread/locker.h, socket/others, socket/zero_copy, socket/socket_opt, socket/rw_flag_oob and the rest of apue: single-call demonstrations, abandoned code, or weaker versions of the protocols above.
