# network-socket in Dafny

A model of the bookkeeping the network-socket demo programs do between their
calls into the operating system, with what the code promises proved about it.
Every kernel answer is a parameter of the model: a wakeup's ready
descriptors, the result of `accept`, each `read`, each `poll` or `select`.
The model covers these programs:

- the thread pool's circular descriptor queue (`block_queue`, `push_fd`,
  `pop_fd`) and its worker's echo loop `do_echo`;
- the level-triggered epoll echo server, its edge-triggered variant, and a
  test-double multiplexer. The multiplexer encodes the level/edge reporting
  rule stated at the top of `edge_triggered_server.c`;
- the epoll server with non-blocking client sockets and its
  `set_nonblocking_mode` flag update;
- the poll server's table of 128 `pollfd` slots: slot 0 is the listener and
  -1 marks a free slot;
- the select server's descriptor set `reads`, its snapshot `cpy_reads`, and
  the bound `fd_max`, which only grows;
- the calculator protocol. The request is a count byte, the operands as
  4-byte ints, then an operator byte. It covers the client that lays the
  request out in `opmsg`, the server that reads it back into `opinfo`, and
  `calculate`;
- the fixed echo client's `recv_len` loop;
- the half-close file server's `fread`/`write` chunk loop.

Each program is one module:
- Net: shared types (`byte`, descriptors, one read's result, the actions a
  server takes).
- ThreadPool, Readiness, EpollServer, EdgeTriggeredServer, NonblockingServer,
  PollServer, SelectServer.
- Int32: a C `int` as its four little-endian bytes.
- OpClient, OpServer, EchoClientFixed, FileServer.

Code that changes state in place is modelled as a class or a method over
arrays, and proved equal to a pure function of the old state. The
properties are lemmas about those functions.

## Model

| member | source | states |
|---|---|---|
| ThreadPool.Advance | 46-multi-thread/thread_pool.c:57-58 | an index inside the capacity steps to (i+1) mod capacity and stays inside it |
| ThreadPool.Init | 46-multi-thread/thread_pool.c:41-49 | capacity cap, head = tail = 0, QUEQUE_SIZE zeroed slots whatever cap is, nothing pending |
| ThreadPool.Count | 46-multi-thread/thread_pool.c:70 | the number of pending descriptors is (tail - head) mod capacity, below the capacity, and 0 exactly when head == tail |
| ThreadPool.Contents | 46-multi-thread/thread_pool.c:72-74 | the pending descriptors, oldest first, are as many as Count says |
| ThreadPool.Push | 46-multi-thread/thread_pool.c:55-58 | fd goes into slot tail only; tail advances mod capacity; head and every other slot are unchanged; nothing checks for a full queue |
| ThreadPool.Pop | 46-multi-thread/thread_pool.c:70-74 | once head != tail, returns slot head, advances head mod capacity, and leaves tail and the slots unchanged |
| ThreadPool.PushAppends | 46-multi-thread/thread_pool.c:55-58 | with fewer than capacity-1 pending, a push appends fd to the pending sequence |
| ThreadPool.PopTakesOldest | 46-multi-thread/thread_pool.c:72-74 | a pop returns the oldest pending descriptor and removes exactly it |
| ThreadPool.PushWhenFullLosesPending | 46-multi-thread/thread_pool.c:57-60 | a push with capacity-1 pending makes tail == head, so the queue reads as empty although capacity descriptors are unpopped; the next push overwrites slot head, which held the oldest |
| ThreadPool.SafePush | 46-multi-thread/thread_pool.c:55-60 | the bounded push refuses exactly when capacity-1 are pending, and otherwise appends fd |
| ThreadPool.Run | 46-multi-thread/thread_pool.c:52-80 | replaying pushes and pops keeps the indices valid; it fails exactly when some pop finds nothing pending, where the wait at line 70 would spin forever; otherwise it pops once per PopOp |
| ThreadPool.RunIsFifo | 46-multi-thread/thread_pool.c:55-74 | FIFO: if no push meets a nearly full queue, the popped descriptors followed by those still pending equal those pending at the start followed by those pushed |
| ThreadPool.OversizedCapacityOverrunsStorage | 46-multi-thread/thread_pool.c:43-44 | with cap above QUEQUE_SIZE, the push after QUEQUE_SIZE pushes writes index QUEQUE_SIZE, one past the allocated slots |
| ThreadPool.BlockQueue.constructor | 46-multi-thread/thread_pool.c:41-49 | the allocated queue is Init(cap) |
| ThreadPool.BlockQueue.PushFd | 46-multi-thread/thread_pool.c:52-64 | the in-place push leaves the queue equal to Push of its old state |
| ThreadPool.BlockQueue.PopFd | 46-multi-thread/thread_pool.c:67-80 | the in-place pop returns and leaves what Pop of the old state gives |
| ThreadPool.FullChunks | 46-multi-thread/thread_pool.c:164-166 | counts the reads whose terminator store lands one past `buf`; at most one per read |
| ThreadPool.FullReadOverrunsTerminator | 46-multi-thread/thread_pool.c:166 | a read that fills the 30-byte buffer puts the terminator out of bounds |
| ThreadPool.DoEcho | 46-multi-thread/thread_pool.c:159-174 | every chunk is written back as read, in order; the fd is closed once; a read error is reported exactly when the last read is negative; out-of-bounds terminator stores are counted |
| Readiness.Ready | 44-io-multiplexing-epoll/edge_triggered_server.c:2-3 | an fd is reported exactly when it is registered and, if level-triggered, has unread data, or, if edge-triggered, has had new data since it was last reported |
| Readiness.Wait | 44-io-multiplexing-epoll/edge_triggered_server.c:2-3 | a wait reports the ready fds; it consumes the edge of exactly those reported and changes no unread count |
| Readiness.Arrive | 44-io-multiplexing-epoll/edge_triggered_server.c:3 | new data raises that fd's unread count alone and arms its edge |
| Readiness.Register | 44-io-multiplexing-epoll/edge_triggered_server.c:87-90 | a registration with data already buffered is reported, in either mode |
| Readiness.Waits | 44-io-multiplexing-epoll/edge_triggered_server.c:93-98 | waits with no reads in between change neither the registrations nor the unread counts |
| Readiness.LevelReportsEveryWait | 44-io-multiplexing-epoll/edge_triggered_server.c:2 | a level-triggered fd with unread data is reported on every wait |
| Readiness.EdgeStarvesWithoutArrival | 44-io-multiplexing-epoll/edge_triggered_server.c:3 | once reported, an edge-triggered fd is never reported again without new data, and its data stays unread |
| Readiness.EdgeStarvesFrom | 44-io-multiplexing-epoll/edge_triggered_server.c:3 | an edge-triggered fd whose edge is consumed is reported on no later wait |
| Readiness.EdgeReportedAfterArrival | 44-io-multiplexing-epoll/edge_triggered_server.c:3 | new data re-arms an edge-triggered fd |
| Readiness.TwoWritesNoDrain | 44-io-multiplexing-epoll/edge_triggered_server.c:1-4 | two writes with no read in between: the first wait reports the fd in both modes, and the second wait reports it exactly when it is level-triggered |
| EpollServer.Start | 44-io-multiplexing-epoll/epoll_server.c:71-76 | before the loop the interest set is exactly the listener, with EPOLLIN |
| EpollServer.AddInterest | 44-io-multiplexing-epoll/epoll_server.c:119-121 | EPOLL_CTL_ADD of a new non-negative fd adds it with the mode, and otherwise changes nothing; existing registrations are kept |
| EpollServer.HandleEvent | 44-io-multiplexing-epoll/epoll_server.c:113-136 | a listener event registers the accepted fd; a 0-byte read removes exactly that fd; any other read leaves the set unchanged; one action is logged |
| EpollServer.Dispatch | 44-io-multiplexing-epoll/epoll_server.c:110-137 | a wakeup handles its `event_cnt` entries in array order, one action each |
| EpollServer.Serve | 44-io-multiplexing-epoll/epoll_server.c:92-138 | the loop reports a failure exactly when some `epoll_wait` returned -1; the listener never changes |
| EpollServer.HandleEventKeepsInv | 44-io-multiplexing-epoll/epoll_server.c:113-136 | one entry keeps the invariant: the listener is registered level-triggered, every other fd was accepted, and no close names the listener |
| EpollServer.DispatchKeepsInv | 44-io-multiplexing-epoll/epoll_server.c:110-137 | a wakeup keeps that invariant |
| EpollServer.ServeKeepsInv | 44-io-multiplexing-epoll/epoll_server.c:92-138 | every run keeps it: the listener is never deregistered or closed |
| EpollServer.FailureEndsLoop | 44-io-multiplexing-epoll/epoll_server.c:104-108 | an `epoll_wait` of -1 ends the loop; nothing after it is processed |
| EpollServer.NegativeReadIsEchoed | 44-io-multiplexing-epoll/epoll_server.c:126-135 | a read of -1 is not a close: the fd stays registered and the write is issued with length -1 |
| EpollServer.PositiveReadIsEchoed | 44-io-multiplexing-epoll/epoll_server.c:134-135 | a positive read writes back exactly the bytes read and keeps the interest set |
| EpollServer.EpollLoop.constructor | 44-io-multiplexing-epoll/epoll_server.c:71-76 | the in-place state starts as Start |
| EpollServer.EpollLoop.HandleOne | 44-io-multiplexing-epoll/epoll_server.c:113-136 | the in-place update equals HandleEvent |
| EpollServer.EpollLoop.Wakeup | 44-io-multiplexing-epoll/epoll_server.c:110-137 | the for loop over `ep_events` equals Dispatch |
| EpollServer.EpollLoop.Run | 44-io-multiplexing-epoll/epoll_server.c:92-138 | the while loop equals Serve |
| EdgeTriggeredServer.Start | 44-io-multiplexing-epoll/edge_triggered_server.c:58-65 | only the listener is registered, level-triggered; `wakeup_cnt` holds whatever was in memory |
| EdgeTriggeredServer.HandleEvent | 44-io-multiplexing-epoll/edge_triggered_server.c:80-98 | a listener event registers the accepted fd edge-triggered; a client event is only noted, with no read, no close and no change to the set |
| EdgeTriggeredServer.Dispatch | 44-io-multiplexing-epoll/edge_triggered_server.c:77-99 | one action per entry; the counter is untouched |
| EdgeTriggeredServer.Serve | 44-io-multiplexing-epoll/edge_triggered_server.c:67-100 | failure is reported exactly when a wait returned -1 |
| EdgeTriggeredServer.DispatchKeepsInv | 44-io-multiplexing-epoll/edge_triggered_server.c:77-99 | a wakeup keeps the listener level-triggered and every client edge-triggered, takes no registration away, and never reads or closes |
| EdgeTriggeredServer.ServeKeepsInv | 44-io-multiplexing-epoll/edge_triggered_server.c:67-100 | over any run the interest set only grows, and `wakeup_cnt` rises by one for each `epoll_wait` return, including the failing one |
| EdgeTriggeredServer.Returns | 44-io-multiplexing-epoll/edge_triggered_server.c:69-75 | the loop sees at most as many returns as were given |
| EdgeTriggeredServer.WakeupCountDependsOnGarbage | 44-io-multiplexing-epoll/edge_triggered_server.c:65-70 | two different initial contents of the uninitialised counter give two different final counts after the same run |
| EdgeTriggeredServer.EdgeLoop.constructor | 44-io-multiplexing-epoll/edge_triggered_server.c:58-65 | the in-place state starts as Start |
| EdgeTriggeredServer.EdgeLoop.Run | 44-io-multiplexing-epoll/edge_triggered_server.c:67-100 | the loop equals Serve |
| NonblockingServer.SetNonblocking | 45-nonblocking-io/nonblocking_server.c:154-158 | O_NONBLOCK is on afterwards and every other bit is preserved |
| NonblockingServer.SetNonblockingChangesOnlyBlocking | 45-nonblocking-io/nonblocking_server.c:157 | the flags change exactly when O_NONBLOCK was off |
| NonblockingServer.SetNonblockingIdempotent | 45-nonblocking-io/nonblocking_server.c:156-157 | applying it twice is the same as applying it once |
| NonblockingServer.SetNonblockingMode | 45-nonblocking-io/nonblocking_server.c:154-158 | get-then-set of one fd's flags; no other fd's flags change; for fd -1 both calls fail and nothing changes |
| NonblockingServer.Start | 45-nonblocking-io/nonblocking_server.c:93-100 | the listener is registered as in the epoll server; its flags stay as given because the call at line 94 is commented out |
| NonblockingServer.HandleEvent | 45-nonblocking-io/nonblocking_server.c:115-142 | the interest set and actions are the epoll server's; an accepted fd is made non-blocking first; a client event leaves all flags alone |
| NonblockingServer.Dispatch | 45-nonblocking-io/nonblocking_server.c:112-143 | a wakeup keeps the listener and appends one action per entry, in array order, each the epoll server's response to that entry |
| NonblockingServer.Serve | 45-nonblocking-io/nonblocking_server.c:102-144 | the loop reports a failure exactly when some `epoll_wait` returned -1; the listener never changes |
| NonblockingServer.DispatchIsEpollDispatch | 45-nonblocking-io/nonblocking_server.c:112-143 | a wakeup does exactly what the epoll server's does to the interest set and the actions, so a -1 read is also written back and the fd stays registered |
| NonblockingServer.ServeIsEpollServe | 45-nonblocking-io/nonblocking_server.c:102-144 | whole runs, and the end on a failed wait, match the epoll server's |
| NonblockingServer.HandleEventKeepsFlagInv | 45-nonblocking-io/nonblocking_server.c:115-130 | one entry keeps every registered client non-blocking and the listener's flags unchanged |
| NonblockingServer.DispatchKeepsFlagInv | 45-nonblocking-io/nonblocking_server.c:112-143 | so does a whole wakeup |
| NonblockingServer.ServeKeepsFlagInv | 45-nonblocking-io/nonblocking_server.c:102-144 | so does a whole run of wakeups, as long as accept never returns the listener |
| NonblockingServer.NonblockingLoop.constructor | 45-nonblocking-io/nonblocking_server.c:93-100 | the in-place state starts as Start |
| NonblockingServer.NonblockingLoop.SetNonblockingModeOf | 45-nonblocking-io/nonblocking_server.c:154-158 | the in-place flag update equals SetNonblockingMode and touches nothing else |
| NonblockingServer.NonblockingLoop.HandleOne | 45-nonblocking-io/nonblocking_server.c:115-142 | equals HandleEvent |
| NonblockingServer.NonblockingLoop.Run | 45-nonblocking-io/nonblocking_server.c:102-144 | equals Serve |
| PollServer.InitTable | 43-io-multiplexing-poll/poll_server.c:93-100 | slot 0 holds the listener with POLLRDNORM; slots 1 to 127 are free |
| PollServer.FirstFreeFrom | 43-io-multiplexing-poll/poll_server.c:115-123 | the lowest free slot at or above the start index, or POLL_SIZE when there is none |
| PollServer.FirstFree | 43-io-multiplexing-poll/poll_server.c:114-123 | the search stops at the lowest free slot in 1..127; POLL_SIZE means the table is full; slot 0 is never chosen |
| PollServer.FirstFreeUnique | 43-io-multiplexing-poll/poll_server.c:115-118 | the lowest-free-slot description picks exactly one index |
| PollServer.ScanFrom | 43-io-multiplexing-poll/poll_server.c:132-151 | the scan never changes slot 0; with `ready_num` <= 0 it does nothing; otherwise each handled slot takes one from `ready_num`, which ends at 0 or above |
| PollServer.Iteration | 43-io-multiplexing-poll/poll_server.c:104-151 | a negative `poll` result ends the loop; the process exits exactly when a connection arrives with no free slot; slot 0 is kept |
| PollServer.ScanOnlyFreesClosed | 43-io-multiplexing-poll/poll_server.c:134-145 | a slot the scan changes was a readable, occupied client slot whose read returned 0, and it is now free; free slots are skipped and stay as they are |
| PollServer.ScanActionsAreClients | 43-io-multiplexing-poll/poll_server.c:132-151 | the scan only closes or writes, and only to descriptors held by client slots |
| PollServer.ScanIgnoresQuietSlot | 43-io-multiplexing-poll/poll_server.c:132-137 | storing into a free slot whose `revents` is 0 leaves the scan's reads, frees and count as they were, and the slot keeps what was stored |
| PollServer.AcceptedNotServicedAtOnce | 43-io-multiplexing-poll/poll_server.c:109-137 | with at least one event reported, a connection is stored in the lowest free slot with POLLRDNORM and is not read in the iteration that accepted it; the iteration is the accept followed by the scan of the table as it was before the insert, with one less event to serve, so every other slot ends as that scan leaves it |
| PollServer.PollLoop.constructor | 43-io-multiplexing-poll/poll_server.c:93-100 | the initialising loop leaves `event_set` equal to InitTable |
| PollServer.PollLoop.FindFreeSlot | 43-io-multiplexing-poll/poll_server.c:114-123 | the search loop returns the lowest free slot at index 1 or above, or POLL_SIZE |
| PollServer.PollLoop.Scan | 43-io-multiplexing-poll/poll_server.c:132-151 | the in-place scan leaves the table, the actions and `ready_num` as ScanFrom says |
| PollServer.PollLoop.Service | 43-io-multiplexing-poll/poll_server.c:137-150 | a read of 0 closes the fd and frees its slot; any other result is written back |
| PollServer.PollLoop.Iterate | 43-io-multiplexing-poll/poll_server.c:104-151 | one pass of the loop does what Iteration says, in place; a failed poll or a full table leaves `event_set` unchanged |
| SelectServer.Start | 42-io-multiplexing-select/select_server.c:74-76 | `reads` is the listener alone and `fd_max` is the listener |
| SelectServer.Snapshot | 42-io-multiplexing-select/select_server.c:85-90 | `cpy_reads` after select holds exactly the monitored, ready descriptors up to `fd_max` |
| SelectServer.Visit | 42-io-multiplexing-select/select_server.c:97-121 | the listener accepts: the new fd joins `reads` and raises `fd_max` to max(fd_max, clnt_sock). A 0-byte read removes exactly that fd and leaves `fd_max`. Any other read is written back. An fd outside the snapshot is untouched |
| SelectServer.ScanFrom | 42-io-multiplexing-select/select_server.c:95-123 | the scan keeps the listener, never lowers `fd_max`, and only appends actions |
| SelectServer.Round | 42-io-multiplexing-select/select_server.c:85-123 | -1 ends the loop; a timeout changes nothing and continues |
| SelectServer.Serve | 42-io-multiplexing-select/select_server.c:82-124 | the loop ends on failure exactly when some select returned -1 |
| SelectServer.ScanKeepsInv | 42-io-multiplexing-select/select_server.c:95-123 | the scan keeps the listener in `reads` and every member at or below `fd_max` |
| SelectServer.ServeKeepsInv | 42-io-multiplexing-select/select_server.c:82-124 | over any run that invariant holds and `fd_max` never decreases |
| SelectServer.ScanServesSnapshot | 42-io-multiplexing-select/select_server.c:95-123 | the descriptors read from are exactly the snapshot's clients at or above the start, so an fd accepted during the scan is not read in it |
| SelectServer.RoundServesReady | 42-io-multiplexing-select/select_server.c:85-123 | a ready round reads every ready client of the snapshot, no descriptor twice, and nothing else |
| SelectServer.SelectLoop.constructor | 42-io-multiplexing-select/select_server.c:74-80 | the in-place state starts as Start |
| SelectServer.SelectLoop.Scan | 42-io-multiplexing-select/select_server.c:95-123 | the for loop, whose bound is re-read on every pass, equals ScanFrom |
| SelectServer.SelectLoop.Run | 42-io-multiplexing-select/select_server.c:82-124 | the while loop equals Serve |
| Int32.Wrap | 06-tcp-ctrl-by-application-layer/op_server.c:86-100 | the 32-bit two's-complement value of a result: in range, congruent modulo 2^32, and the identity on values already in range |
| Int32.DecodeEncode | 06-tcp-ctrl-by-application-layer/op_client.c:50 | reading back an operand's bytes gives the operand |
| Int32.EncodeDecode | 06-tcp-ctrl-by-application-layer/op_server.c:70 | any four bytes are the bytes of the int they decode to |
| OpClient.OperandBytes | 06-tcp-ctrl-by-application-layer/op_client.c:47-51 | operand i's bytes occupy [4i, 4i+4) of the operand block |
| OpClient.Request | 06-tcp-ctrl-by-application-layer/op_client.c:45-58 | the message has count*4+2 bytes: byte 0 is the count, operand i is at [4i+1, 4i+5), and the operator is at count*4+1 |
| OpClient.RequestFitsBuffer | 06-tcp-ctrl-by-application-layer/op_client.c:50-56 | every store stays inside the 1024-byte `opmsg` exactly when the count is at most 255 |
| OpClient.LayoutDeterminesRequest | 06-tcp-ctrl-by-application-layer/op_client.c:45-58 | any message with that layout is the request |
| OpClient.EncodeRequest | 06-tcp-ctrl-by-application-layer/op_client.c:43-58 | the bytes sent from the filled `opmsg` are the request |
| OpServer.ReadAt | 06-tcp-ctrl-by-application-layer/op_server.c:67-72 | a read of n bytes at an offset stores the first min(n, available) bytes of the stream there and nowhere else |
| OpServer.Receive | 06-tcp-ctrl-by-application-layer/op_server.c:66-72 | the count is one byte in 0..255; on an empty stream it is 0 and the buffer and operator keep their old contents |
| OpServer.OperandsFitBuffer | 06-tcp-ctrl-by-application-layer/op_server.c:19-20 | 255 operands end at byte 1020, inside `opinfo`, which holds 256 ints |
| OpServer.OperandsOf | 06-tcp-ctrl-by-application-layer/op_server.c:74 | `(int *)opinfo` holds int i at bytes [4i, 4i+4) |
| OpServer.FillFromRequest | 06-tcp-ctrl-by-application-layer/op_server.c:68-71 | reading a request's operand bytes puts operand j at offset 4j and leaves the operator byte next in the stream |
| OpServer.ReceiveRequest | 06-tcp-ctrl-by-application-layer/op_server.c:66-72 | round trip: from the client's request the server recovers the count, the operands in order and the operator |
| OpServer.EmptyRequestKeepsBuffer | 06-tcp-ctrl-by-application-layer/op_server.c:66-72 | a request with count 0 leaves `opinfo` as it was, so `calculate` reads a stale `opnds[0]` |
| OpServer.CalcFolds | 06-tcp-ctrl-by-application-layer/op_server.c:84-100 | '+' gives the sum of the opnum operands, '*' their product, and '-' the first minus the sum of the rest |
| OpServer.CalcDegenerate | 06-tcp-ctrl-by-application-layer/op_server.c:84-103 | with at most one operand, '+', '-' and '*' give `opnds[0]`; any other operator gives -1 |
| OpServer.Calculate | 06-tcp-ctrl-by-application-layer/op_server.c:84-107 | the three loops compute the fold specification, including the -1 default |
| OpServer.SumRequestIsAnswered | 06-tcp-ctrl-by-application-layer/op_server.c:66-75 | end to end: a client that asks for the sum of its operands reads back the sum, wrapped to 32 bits |
| OpServer.ServeFrom | 06-tcp-ctrl-by-application-layer/op_server.c:58-78 | unless a failed accept exits, exactly five clients are served, each getting one 4-byte reply on its own socket |
| OpServer.CalcServer.constructor | 06-tcp-ctrl-by-application-layer/op_server.c:30-33 | `opinfo` and `operator` start with whatever was in memory |
| OpServer.CalcServer.ReadInto | 06-tcp-ctrl-by-application-layer/op_server.c:67-72 | the in-place read equals ReadAt |
| OpServer.CalcServer.ReceiveFrom | 06-tcp-ctrl-by-application-layer/op_server.c:66-72 | the in-place reads equal Receive |
| OpServer.Reply | 06-tcp-ctrl-by-application-layer/op_server.c:75-76 | the 4 bytes written back decode to `calculate`'s result wrapped to 32 bits |
| OpServer.CalcServer.ServeOne | 06-tcp-ctrl-by-application-layer/op_server.c:66-77 | one client's reply is Reply of what Receive read |
| OpServer.CalcServer.ServeClients | 06-tcp-ctrl-by-application-layer/op_server.c:58-78 | the `for` over five clients equals ServeFrom |
| EchoClientFixed.Collect | 05-tcp-simple-echo/echo_client_fixed.c:56-63 | no read is made once `recv_len` >= `str_len`; the loop ends normally only with `recv_len` >= `str_len`, waits only below it, and fails only on a read that returned -1 |
| EchoClientFixed.CollectBounds | 05-tcp-simple-echo/echo_client_fixed.c:53-63 | when the loop ends, `recv_len` is at least `str_len` and at most BUF_SIZE, and counts the received bytes; those bytes are the start of what the server sent |
| EchoClientFixed.OvershootEndsLoop | 05-tcp-simple-echo/echo_client_fixed.c:54-56 | because the guard is `<`, a read that delivers more than is missing still ends the loop |
| EchoClientFixed.EndOfStreamNeverEnds | 05-tcp-simple-echo/echo_client_fixed.c:56-62 | reads that return 0 never end the loop: it keeps waiting with the same `recv_len` |
| EchoClientFixed.ReceiveEcho | 05-tcp-simple-echo/echo_client_fixed.c:53-64 | each read lands at `message[recv_len]` with limit BUF_SIZE - recv_len; a -1 read ends with an error; on exit `message` keeps exactly the first `str_len` received bytes, then the terminator |
| EchoClientFixed.SessionSpec | 05-tcp-simple-echo/echo_client_fixed.c:44-66 | the lines sent are the input lines in order, none of them a quit line; a session ends on a quit line exactly at the first one; a session that runs out of input has sent every line and printed every echo; a read error or a short echo ends it with the last line sent unanswered; one reply is printed per answered line |
| EchoClientFixed.QuitSendsNothing | 05-tcp-simple-echo/echo_client_fixed.c:49-50 | a first line "q\n" or "Q\n" ends the session with nothing sent or printed |
| EchoClientFixed.ShownIsEcho | 05-tcp-simple-echo/echo_client_fixed.c:56-65 | every reply printed is the first `str_len` bytes the server sent back for that line |
| EchoClientFixed.EchoLine | 05-tcp-simple-echo/echo_client_fixed.c:51-64 | one line: the printed bytes are the first `str_len` received |
| EchoClientFixed.Session | 05-tcp-simple-echo/echo_client_fixed.c:44-66 | the client loop, reusing `message`, equals SessionSpec |
| FileServer.Chunks | 21-tcp-half-close/file-server.c:64-70 | the file is sent in length/BUF_SIZE + 1 writes |
| FileServer.ChunksConcatenate | 21-tcp-half-close/file-server.c:64-70 | the written chunks concatenate to the file |
| FileServer.ChunkSizes | 21-tcp-half-close/file-server.c:66-69 | every chunk but the last has BUF_SIZE bytes; the last is shorter, and is empty exactly when the length is a multiple of BUF_SIZE |
| FileServer.SendChunks | 21-tcp-half-close/file-server.c:64-70 | the loop over `buf` writes exactly the chunks, stopping after the first short one |
| FileServer.Serve | 21-tcp-half-close/file-server.c:62-81 | all chunks are written before the output side is shut down; then one feedback read, then the close |

## Left out

- Socket setup and teardown are not modelled: `socket`, `bind`, `listen`, `setsockopt`, `connect`, `epoll_create`, `malloc`/`free`, closing the listener. They are OS calls with no state worth modelling. `error_handling`, from 00-lib/error.h, appears only as an outcome that ends the program.
- Threads are not modelled: the mutex, the condition variable, `thread_run`, `pthread_create`. The queue is modelled sequentially. The wait loop in `pop_fd` becomes Pop's precondition, and Run fails where a pop would wait forever.
- ThreadPool.Init requires 0 < cap <= QUEQUE_SIZE, because the ring model keeps its indices inside its storage. A larger cap is shown separately by OversizedCapacityOverrunsStorage. A cap of 0 or less is not modelled.
- ThreadPool.DoEcho counts the out-of-bounds terminator store instead of performing it. Reads are given as the positive chunks plus the final result, and writes are assumed to succeed.
- Kernel behaviour is given as input and not modelled: readiness, `accept` results and `read` results. Writes are logged and assumed to succeed.
- Logging and delays are not modelled: `printf`, `puts`, `perror`, `sleep`, and the printing of buffers that are not terminated.
- epoll's limit of EPOLL_SIZE entries per wakeup is not enforced; it is the kernel's guarantee. EPOLL_CTL_ADD errors, which the source ignores, are modelled as no-ops.
- How the real epoll and the wakeup counter relate is not modelled. The counter is modelled against the wakeups given as input, and the level/edge rule is modelled only in the Readiness test double.
- NonblockingServer: a socket whose flags are not given is taken to have O_RDWR alone.
- PollServer.InitTable: the source leaves the `events` of free slots uninitialised; the model sets them to 0. poll ignores negative fds either way.
- PollServer: the `revents` are given as input. PollAnswerFor only requires that free slots report 0.
- SelectServer: FD_SET or a read of a negative `accept` result has no effect. The FD_SETSIZE limit is not modelled. The `timeout` struct, which Linux's select may change and the source never resets, is not modelled; a timeout is just an input.
- OpServer.Calculate computes with mathematical integers. The reply is wrapped to 32 bits, but C's signed overflow is undefined behaviour and is not modelled.
- OpClient.EncodeRequest requires 0 <= opnd_cnt <= 255. The source does not check the count, and a larger one writes outside `opmsg`; RequestFitsBuffer states that bound. `scanf` is not modelled: operands are given as 32-bit ints.
- OpServer reads are short only at the end of a client's stream. Partial reads on a live socket are not modelled.
- EchoClientFixed: the end of standard input, where `fgets` returns NULL and the previous line is sent again, is not modelled. InputEnded only means the given lines ran out.
- EchoClientFixed: each line is given as its bytes up to `strlen`, and `write` is assumed to send the whole line.
- FileServer: the file is given as its contents. A failed `fopen` is not modelled. `fread` returns min(BUF_SIZE, remaining), and writes are complete.
- Other programs are not part of this model:
  - thread_server.c: its point is thread-per-connection concurrency.
  - mp_server.c and mp_client.c: processes and signals.
  - The byte-order and address conversion demos: they only call libc.
  - The single-connection and UDP demos, nonblocking_client.c and file-client.c: straight-line I/O.
  - The TIME-WAIT table in time_wait_server.c: prose that no code implements.

## Findings

| source | as written | input that shows it | evidently intended | confidence | as-written member | corrected member |
|---|---|---|---|---|---|---|
| 46-multi-thread/thread_pool.c:55-60 | `push_fd` stores and advances `tail` without checking for a full queue | a queue with capacity 2 and one fd pending; the next push makes tail == head, and both fds are lost | a push into a queue holding capacity-1 fds is refused (or waits), so pending fds are kept | not executed | ThreadPool.PushWhenFullLosesPending | ThreadPool.SafePush |
