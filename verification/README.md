# FastCGI servers: a verified model

The repository holds three FastCGI servers built on three libraries: libfcgi's buffered record
streams (`fastcgi/`), libco's coroutines, timing wheel and shared stacks (`cocgi/`), and muduo's
event loop, timers, buffers and connections with a codec of their own (`mucgi/`). This project
models the parts of them that carry state from call to call and proves what they are for:

- the libfcgi reader returns the content of its own records whatever the cut of the connection into
  reads and whatever the mix of calls, `FCGX_Accept_r` rebuilds the environment, and the two writers
  of a request put whole records on the descriptor with one end-request record, the last of theirs;
- the intrusive lists refine sequences, the timing wheel gives up exactly what is due and in order, the
  event loop over any run fires nothing early, nothing late, nothing twice and loses nothing, and a
  coroutine finds its stack again;
- no wakeup is lost by muduo's functor queue, the two timer indexes agree and the timer descriptor is
  armed, the buffer refines a byte string, the connection delivers in order under partial writes;
- the mucgi codec calls back once with the encoded map and the exact input for a request that arrives in
  any pieces, and once for each of several in order unless a piece that completes one holds a whole
  record of the next, and its responses frame back to the output;
- the calendar arithmetic is a bijection that counts days, UTC conversion undoes itself, and the form
  codec undoes itself.

What a system call, a clock or another thread decides is free: reads and writes take any admissible
piece (`Descriptors.Connection`, `TcpConnection.SocketWrite`), clock readings are parameters, threads
interleave step by step. A connection marked `faulty` or `fragile` may also fail; most functional
claims are about one that is not, and what still holds on one that may is stated beside them.

Functions such as `ReaderSpec.Settle`, `RequestCodec.Process` or `TimedEntries.InOrder` are
reference definitions. The classes and loops that follow the source are proved against them, and the
theorems are proved about them, so that each main result is tied to the code and to a meaning that
does not mention it.

Code and documentation differ in some places. The model follows the code:

- The reader keeps its skip flag across an empty record of another request, so the next content of its
  own stream is dropped. `ReaderTheorems.DeliveredExact` says exactly when, `DeliveryFails` gives an input.
- `SetReaderType` forgets padding that has not been read. A begin record or a parameter terminator with
  padding therefore spoils the request; `AcceptTheorems.PaddingExact` says exactly when, and that a
  padded begin record is still accepted, with the role entry alone (`PaddingFails`).
- `TakeAllTimeout` keeps a 64-bit difference in an `int`. `TimingWheel.TakesDueExact` says exactly
  when that is harmless.
- A functor queued by the loop thread before `loop()` starts waits for the first poll to time out:
  `FunctorQueue.EarlyFunctorsWait`.
- `weekDay` is negative on most days before day -1, and `tm_yday` is off by one in the year -4800:
  `Calendar.WeekDayExact` and `WeekDayFails`, `Calendar.YdayExact` and `YdayFails`.
- The reader answers second begin records on the descriptor the writers use, so after both streams have been
  closed a read can still put a refusal behind the end-request record. `RequestRuns.RunWhole` says from the
  bytes and the calls exactly when, `RequestRuns.LateRefusal` gives a run.
- `onMessage` parses every whole record in the buffer before its one callback, so requests that arrive in
  one piece are one request to it: `RequestCodecTheorems.AllAtOnce`, with the balance of callbacks and requests
  for any bytes in `RequestCodecTheorems.CallbackBalance`.
- On a kept connection the reader of the earlier request is freed with what it has buffered, and the new one
  takes a stray record of the earlier request for a protocol error. `AcceptTheorems.KeptExact` says exactly when
  the next request still arrives intact.

Check the project with `dafny verify dfyconfig.toml`.

## Model

| member | source | states |
|---|---|---|
| Records.HeaderRoundTrip | fastcgi/fastcgi_lib/fcgiapp.cpp:1194-1213 | a header built for any type, id, content length up to 65535 and padding up to 255 parses back to the same fields, version 1 |
| Records.FramesEncodeAll | mucgi/fastcgi.cpp:227-264 | cutting an encoded record sequence into records gives exactly those records and then whatever the bytes after them give |
| Records.FramesSplit | mucgi/fastcgi.cpp:227-264 | bytes that arrive in two pieces are framed as if they had arrived at once: the records of the first piece, then those of its remainder joined to the second |
| NameValue.DecodeEncode | fastcgi/fastcgi_lib/fcgiapp.cpp:1131-1183 | decoding any section 3.4 encoding gives the pairs in order with nothing left, whichever of the one-byte and four-byte length forms the sender chose |
| NameValue.OkIsEncoding | fastcgi/fastcgi_lib/fcgiapp.cpp:1131-1183 | conversely every stream that decodes is such an encoding of the pairs found |
| NameValue.ToMapLast | mucgi/fastcgi.cpp:76-97 | a parameter map holds exactly the names that occur, each with the value of its last occurrence |
| Descriptors.Connection.Read | fastcgi/fastcgi_lib/fcgiapp.cpp:1620-1628 | a read takes some non-empty prefix of what is pending, nothing at the end, and loses nothing on an error |
| Descriptors.Connection.WriteAll | fastcgi/fastcgi_lib/fcgiapp.cpp:1357-1369 | repeated partial writes put exactly the data on the descriptor, or a prefix of it if a write fails |
| ReaderSpec.DropSome | fastcgi/fastcgi_lib/fcgiapp.cpp:1633-1647 | dropping skipped content in pieces leaves the reader where dropping it at once would |
| ReaderSpec.FetchPiece | fastcgi/fastcgi_lib/fcgiapp.cpp:141-174 | content may be taken in any first piece without changing what the whole read yields, where it stops or why |
| StreamReader.InStream.constructor | fastcgi/fastcgi_lib/fcgiapp.cpp:1737-1795 | a new reader stands at the start of what is pending, whatever the alignment of its buffer |
| StreamReader.InStream.SetReaderType | fastcgi/fastcgi_lib/fcgiapp.cpp:1828-1840 | the reader reopens for another stream at the same unread byte, with no memory of content or padding of the last record |
| StreamReader.InStream.Refill | fastcgi/fastcgi_lib/fcgiapp.cpp:1617-1628 | a refill keeps the unread bytes; with no read error it fails only when nothing is left, as a protocol error |
| StreamReader.InStream.FillBuffProc | fastcgi/fastcgi_lib/fcgiapp.cpp:1609-1725 | whatever the cut into reads, the stream ends up where the reference reader goes from the same bytes: same content, same stop or error, same replies sent |
| StreamReader.InStream.Deliver | fastcgi/fastcgi_lib/fcgiapp.cpp:1633-1638 | hands out all content in the buffer without moving the position |
| StreamReader.InStream.DropContent | fastcgi/fastcgi_lib/fcgiapp.cpp:1633-1647 | dropping skipped content piecewise leaves the reader where it was going |
| StreamReader.InStream.DropPadding | fastcgi/fastcgi_lib/fcgiapp.cpp:1652-1659 | dropping padding piecewise leaves the reader where it was going |
| StreamReader.InStream.CopyHeader | fastcgi/fastcgi_lib/fcgiapp.cpp:1672-1679 | a header split over reads is collected without losing or inventing a byte |
| StreamReader.InStream.ProcessHeader | fastcgi/fastcgi_lib/fcgiapp.cpp:1575-1598 | the status, the reply and the state after a header are those the reference classification gives |
| StreamReader.InStream.ProcessBeginRecord | fastcgi/fastcgi_lib/fcgiapp.cpp:1522-1550 | a begin record sets id, role and keep flag, a second one is refused with CANT_MPX_CONN and skipped, a malformed or cut one is a protocol error |
| StreamReader.InStream.GetStr | fastcgi/fastcgi_lib/fcgiapp.cpp:141-174 | the bytes read are the next n of the stream or all that are left, independent of buffering; a closed stream yields nothing |
| StreamReader.InStream.GetChar | fastcgi/fastcgi_lib/fcgiapp.cpp:104-122 | one byte of the same stream, or EOF exactly when the stream ends first |
| StreamReader.InStream.TakeReady | fastcgi/fastcgi_lib/fcgiapp.cpp:148-165 | copies what is ready up to what is wanted and stays on course for the whole read's outcome |
| ReaderTheorems.FetchTakesFromDrain | fastcgi/fastcgi_lib/fcgiapp.cpp:141-174 | a read of n bytes takes the first n of all that can still be read, or all of it with the final halt |
| ReaderTheorems.DrainState | fastcgi/fastcgi_lib/fcgiapp.cpp:1609-1725 | reading never changes which request the reader belongs to, whatever is in the bytes |
| ReaderTheorems.DrainRecords | fastcgi/fastcgi_lib/fcgiapp.cpp:1609-1725 | reading any encoded record sequence ended by the stream's empty record yields what is delivered of it, ends in end of file without error and stops behind the terminator's header |
| ReaderTheorems.DeliveredExact | fastcgi/fastcgi_lib/fcgiapp.cpp:1633-1647 | what is delivered is the content of the stream's own records if and only if no empty foreign record stands right before content of the stream |
| ReaderTheorems.DeliveryFails | fastcgi/fastcgi_lib/fcgiapp.cpp:1633-1647 | three records, the first an empty one of another request, of which the reader delivers nothing although its own record carries a byte |
| ReaderTheorems.StreamTheorem | fastcgi/fastcgi_lib/fcgiapp.cpp:1609-1725 | from the start of a stream: end of file, the right stop, and the exact condition for the data to be the own records' contents with headers, padding and other requests removed |
| ReaderClient.ReadStr | fastcgi/fastcgi_lib/fcgiapp.cpp:141-174 | on an open stream a read takes the next n bytes that can still be read, or all with the final halt; it sends exactly the replies the reference owes, and the stream is closed exactly when it came up short |
| ReaderClient.ReadChar | fastcgi/fastcgi_lib/fcgiapp.cpp:104-122 | on an open stream the byte is the next that can still be read, and EOF means exactly that there is none; replies and closing likewise |
| ReaderClient.RunCalls | fastcgi/fastcgi_lib/fcgiapp.cpp:104-174 | any sequence of GetChar and GetStr calls over any cut of the connection returns a prefix of the stream's data, and all of it once a call comes up short |
| Accept.Params.PutParam | fastcgi/fastcgi_lib/fcgiapp.cpp:1069-1081 | the vector gains the entry, grows when full and keeps its null end |
| Accept.RestOfLength | fastcgi/fastcgi_lib/fcgiapp.cpp:1142-1149 | a one-byte or four-byte length as the reference reads it, or failure exactly when bytes are missing |
| Accept.ReadOne | fastcgi/fastcgi_lib/fcgiapp.cpp:1137-1181 | one turn of the loop adds exactly the next pair, or fails exactly when the reference does |
| Accept.ReadParams | fastcgi/fastcgi_lib/fcgiapp.cpp:1131-1183 | result 0 exactly when all the stream's data decodes; the vector gains name=value for each pair found, in order, also on failure, which closes the stream with the first error or a parameter error |
| Accept.SettleForgets | fastcgi/fastcgi_lib/fcgiapp.cpp:2193-2195 | the role and keep flag an earlier request left in the structure cannot affect where the reader stops on the next connection; only the id is carried over |
| Accept.ReadBegin | fastcgi/fastcgi_lib/fcgiapp.cpp:2193-2198 | a request has begun exactly when the reference reader stops at a begin record, the stream stands behind it, and the id left in the structure is the reference's |
| Accept.ReadEnvironment | fastcgi/fastcgi_lib/fcgiapp.cpp:2214-2237 | success exactly when the parameters decode; then the role entry comes first, the pairs after it, and the stream reads stdin |
| Accept.AcceptOn | fastcgi/fastcgi_lib/fcgiapp.cpp:2193-2237 | one connection is accepted exactly when the reference attempt accepts its bytes, with the same environment, input position and carried-over id, on a stream and vector of its own |
| Accept.AcceptRequest | fastcgi/fastcgi_lib/fcgiapp.cpp:2165-2243 | the connection chosen is the first of those offered, a kept one before new ones, that the reference accepts, each tried with the id the one before it left; the result is the reference's environment and a fresh stream at its input |
| AcceptTheorems.RequestTheorem | fastcgi/fastcgi_lib/fcgiapp.cpp:2165-2243 | any request serialised as begin, params and stdin records is accepted with the role entry followed by each name=value in order, and reading `in` yields exactly the stdin bytes, given no padding in the two critical places and no swallowing pattern |
| AcceptTheorems.ServeRequest | fastcgi/fastcgi_lib/fcgiapp.cpp:2165-2243 | the same on the objects: with a request's bytes on connection k of the backlog some connection no later is accepted, and if it is this one the vector is its environment and any calls on `in` read its stdin bytes from the front, all of them once a call comes up short |
| AcceptTheorems.PaddingExact | fastcgi/fastcgi_lib/fcgiapp.cpp:1828-1840 | with padding that is not itself a version byte the request arrives intact if and only if the begin record and the parameter terminator carry no padding; a padded begin record is accepted with the role entry alone |
| AcceptTheorems.PaddingFails | fastcgi/fastcgi_lib/fcgiapp.cpp:1828-1840 | a concrete request with a zero-padded begin record that is accepted without its parameter |
| AcceptTheorems.BadVersion | fastcgi/fastcgi_lib/fcgiapp.cpp:1575-1582 | a reader at a record boundary that meets a version other than 1 delivers nothing and fails |
| AcceptTheorems.NeverBegins | fastcgi/fastcgi_lib/fcgiapp.cpp:1575-1598 | from any whole records without a begin record, and any padding before them, a new reader does not begin a request |
| AcceptTheorems.KeptExact | fastcgi/fastcgi_lib/fcgiapp.cpp:1988-2021 | with the records of an earlier request followed by those of the next on a kept connection, and the earlier reader freed after any number of them has left the descriptor, the next request arrives intact if and only if exactly the earlier request's have; otherwise the connection is given up |
| AcceptTheorems.KeptCut | fastcgi/fastcgi_lib/fcgiapp.cpp:1988-2021 | the same with the descriptor left inside a record before a byte other than 1: the connection is given up |
| StreamWriter.Writer.constructor | fastcgi/fastcgi_lib/fcgiapp.cpp:1737-1795 | the buffer is a multiple of eight between 24 and 65536 bytes with eight reserved for the header |
| StreamWriter.Writer.Seal | fastcgi/fastcgi_lib/fcgiapp.cpp:1392-1407 | buffered content becomes, inside the buffer, one well-formed record of 1 to 65528 bytes zero padded to a multiple of eight, and no content becomes none |
| StreamWriter.Writer.Flush | fastcgi/fastcgi_lib/fcgiapp.cpp:1411-1418 | everything in the buffer goes to the descriptor and the buffer is empty; a stream that had something in it counts as used |
| StreamWriter.Writer.WriteCloseRecords | fastcgi/fastcgi_lib/fcgiapp.cpp:1321-1353 | adds a terminator unless this is an unused stderr, and the end-request record if this is the last writer |
| StreamWriter.Writer.EmptyBuffProc | fastcgi/fastcgi_lib/fcgiapp.cpp:1381-1425 | extends the descriptor by whole records only: the buffered data and, on close, the closing records |
| StreamWriter.Writer.PutStr | fastcgi/fastcgi_lib/fcgiapp.cpp:303-334 | since the call began only whole data records went out, and they and the buffer carry exactly the bytes put before plus these; a shut writer sends nothing and says -1 |
| StreamWriter.Writer.PutChar | fastcgi/fastcgi_lib/fcgiapp.cpp:275-286 | the same for one byte |
| StreamWriter.Writer.FFlush | fastcgi/fastcgi_lib/fcgiapp.cpp:880-886 | nothing is lost, the buffer is empty afterwards, and a shut writer sends nothing |
| StreamWriter.Writer.FClose | fastcgi/fastcgi_lib/fcgiapp.cpp:905-922 | data still buffered, then the terminator, then perhaps the end of the request; closing again sends nothing |
| RequestWriters.CloseLog | fastcgi/fastcgi_lib/fcgiapp.cpp:1321-1353 | closing one stream finishes its records, leaves the other stream's alone, and adds an end-request record, at the very end, only for the last writer |
| RequestWriters.Close | fastcgi/fastcgi_lib/fcgiapp.cpp:905-922 | closing either writer keeps the two-writer invariant; the last close ends the log with the end-request record and the request's status |
| RequestWriters.PutKeepsInv | fastcgi/fastcgi_lib/fcgiapp.cpp:303-334 | any put or flush on an open writer keeps its records and buffer equal to all that was put to it, and leaves the other stream's records alone |
| RequestWriters.Apply | fastcgi/fastcgi_lib/fcgiapp.cpp:275-334 | any call on either writer keeps the two-writer invariant, and on a closed stream sends nothing |
| RequestWriters.FinishRequest | fastcgi/fastcgi_lib/fcgiapp.cpp:1988-2006 | both streams end finished; if both were closed already nothing more is sent |
| RequestWriters.RunRequest | fastcgi/fastcgi_lib/fcgiapp.cpp:1988-2006 | for every interleaving of puts, flushes, exit-status settings and closes on both writers followed by Finish: whole records, each stream's contents exactly what was put before its first close, one terminator each (none for an unused stderr), and one end-request record, last, with the last status set while a stream was open |
| RequestRuns.FetchReplies | fastcgi/fastcgi_lib/fcgiapp.cpp:1522-1540 | everything a read can make the reader send is a sequence of refusals of second begin records, found from the bytes |
| RequestRuns.CourseReads | fastcgi/fastcgi_lib/fcgiapp.cpp:141-174 | the course of any reading calls, defined from the bytes and the calls alone, reads the stream's data from the front, and all of it once it has stopped |
| RequestRuns.ReadBetween | fastcgi/fastcgi_lib/fcgiapp.cpp:141-174 | a read between writes disturbs neither writer: their invariant survives, its refusals are exactly those the reference owes, and they stand as whole records behind all that was on the descriptor |
| RequestRuns.RunWhole | fastcgi/fastcgi_lib/fcgiapp.cpp:2165-2243 | a request read and written at once, in any order of calls, then finished: the input is the one the bytes and the calls determine, from the front, all of it once a call came up short; the refusals sent are exactly those the reads owe; apart from them the descriptor holds exactly the finished streams and the one end-request record with the right status; and that is the last record of all if and only if no read after both closes owed a refusal |
| RequestRuns.LateRefusal | fastcgi/fastcgi_lib/fcgiapp.cpp:1522-1540 | a run in which it is not: both writers closed, then one byte asked for in front of a second begin record |
| IntrusiveList.AddTail | cocgi/cocgi_lib/libco/co_routine.cpp:192-211 | an item on no list is appended; one on a list changes nothing |
| IntrusiveList.PopHead | cocgi/cocgi_lib/libco/co_routine.cpp:213-237 | the first item leaves and is on no list; the rest stay linked in order |
| IntrusiveList.RemoveAt | cocgi/cocgi_lib/libco/co_routine.cpp:152-190 | exactly the item at its place leaves, with its neighbours joined |
| IntrusiveList.RemoveFromLink | cocgi/cocgi_lib/libco/co_routine.cpp:152-190 | the item leaves whatever list it is on; an item on no list changes nothing |
| IntrusiveList.Join | cocgi/cocgi_lib/libco/co_routine.cpp:239-266 | the first list becomes the concatenation, owner links included, and the second is empty |
| IntrusiveList.WithoutAt | cocgi/cocgi_lib/libco/co_routine.cpp:152-190 | removing an item by identity is cutting it out at its one place |
| TimedEntries.InOrderIsStableSort | cocgi/cocgi_lib/libco/co_routine.cpp:413-442 | the order of taking is the stable sort: sorted by slot time, and for each time exactly the entries given, in insertion order |
| TimedEntries.AtTimeLater | cocgi/cocgi_lib/libco/co_routine.cpp:413-442 | what stays on the wheel is, time by time, exactly what is later than now |
| TimingWheel.SlotCountExact | cocgi/cocgi_lib/libco/co_routine.cpp:425-433 | the int count of slots is the intended one if and only if the gap fits an int or its truncation still covers the wheel |
| TimingWheel.TakesDueExact | cocgi/cocgi_lib/libco/co_routine.cpp:425-440 | taking the slots counted takes all that is due, whatever is on the wheel, if and only if the gap counts right |
| TimingWheel.SlotCountWraps | cocgi/cocgi_lib/libco/co_routine.cpp:425-433 | a gap of 2^32 milliseconds visits no slot at all |
| TimingWheel.RingInsert | cocgi/cocgi_lib/libco/co_routine.cpp:399-409 | putting an item diff slots ahead adds one entry with slot time start + diff and disturbs no other slot |
| TimingWheel.RingAdvance | cocgi/cocgi_lib/libco/co_routine.cpp:434-440 | after the due slots are emptied and the ring turned, every slot again holds exactly the entries of its time |
| TimingWheel.RingDrop | cocgi/cocgi_lib/libco/co_routine.cpp:152-190 | taking an item off its slot takes exactly its entry out of the timing |
| TimingWheel.Wheel.constructor | cocgi/cocgi_lib/libco/co_routine.cpp:361-372 | a wheel of empty lists starting now |
| TimingWheel.Wheel.AddTimeout | cocgi/cocgi_lib/libco/co_routine.cpp:378-412 | accepted exactly when start <= now <= expiry; the slot time is the expiry clamped to the far edge |
| TimingWheel.Wheel.TakeAllTimeout | cocgi/cocgi_lib/libco/co_routine.cpp:413-442 | the slots counted go to the result in order; when the gap counts right these are exactly the entries whose slot time is at most now, by slot time and then insertion, and the rest stay; a clock that runs backwards takes nothing |
| TimingWheel.Wheel.RemoveTimeout | cocgi/cocgi_lib/libco/co_routine.cpp:152-190 | a cancelled timeout is off the wheel and will not be taken |
| CoEventLoop.EventLoop.EventReady | cocgi/cocgi_lib/libco/co_routine.cpp:776-787 | an event puts its item at the end of the active list and counts it as taken in, unless it is on a list already |
| CoEventLoop.EventLoop.EventOnPoll | cocgi/cocgi_lib/libco/co_routine.cpp:736-755 | an event on a polled item moves it, and nothing else, from the wheel to the active list |
| CoEventLoop.EventLoop.Register | cocgi/cocgi_lib/libco/co_routine.cpp:949-960 | a timeout registered during a pass is accepted exactly when it is not in the past; then the wheel holds exactly it in addition, at its clamped slot time, from the same start |
| CoEventLoop.EventLoop.ExpireTimeouts | cocgi/cocgi_lib/libco/co_routine.cpp:789-800 | everything due is marked and appended to the active list in the wheel's order |
| CoEventLoop.EventLoop.Step | cocgi/cocgi_lib/libco/co_routine.cpp:802-823 | the first item is put back if it was taken as a timeout before its expiry and is fired otherwise; the invariant says no timeout was ever fired early |
| CoEventLoop.EventLoop.Pass | cocgi/cocgi_lib/libco/co_routine.cpp:788-823 | a whole pass whose callbacks touch no list fires, once and in order, all that was ready and all that is due, puts exactly the early ones back with their clamped slot times, and leaves the rest of the wheel; afterwards everything on the wheel expires later than now, and what was fired is on no list |
| CoEventLoop.EachOnce | cocgi/cocgi_lib/libco/co_routine.cpp:802-823 | of the items of a pass each is fired or goes back, never both, and none is fired early |
| CoEventLoopRuns.DueAndLater | cocgi/cocgi_lib/libco/co_routine.cpp:413-442 | what TakeAllTimeout takes and what it leaves make up the wheel, item for item |
| CoEventLoopRuns.OnWheelOnce | cocgi/cocgi_lib/libco/co_routine.cpp:378-411 | an item on a list of the wheel has exactly one entry |
| CoEventLoopRuns.PassBalances | cocgi/cocgi_lib/libco/co_routine.cpp:788-823 | a pass keeps the balance: taken in equals on the wheel plus on the active list plus fired, counted with multiplicity |
| CoEventLoopRuns.ExpiryBalances | cocgi/cocgi_lib/libco/co_routine.cpp:789-800 | taking the due timeouts keeps the balance and moves each due item to the active list |
| CoEventLoopRuns.StepBalances | cocgi/cocgi_lib/libco/co_routine.cpp:802-823 | one turn of the inner loop keeps the balance whether its item is fired or goes back |
| CoEventLoopRuns.Run | cocgi/cocgi_lib/libco/co_routine.cpp:757-823 | over every run of registrations, ready events, polled events, expiries and single turns of the inner loop, so with callbacks that register and make ready within a pass, and a clock that does not go back: no timeout is ever fired early, nothing is lost or fired twice, whenever the active list is empty every overdue item has been fired exactly as often as it was taken in, and after an undisturbed pass at t so has every item due by t |
| SharedStack.Env.constructor | cocgi/cocgi_lib/libco/co_routine.cpp:705-720 | the main coroutine runs alone on its own stack and nothing has been displaced |
| SharedStack.Env.Displace | cocgi/cocgi_lib/libco/co_routine.cpp:612-625 | the occupant's live stack is saved before its memory is taken over, and nobody else's is touched |
| SharedStack.Env.RestoreStack | cocgi/cocgi_lib/libco/co_routine.cpp:630-642 | after the switch the live stack is back in place, copied exactly when it had been displaced |
| SharedStack.Env.Swap | cocgi/cocgi_lib/libco/co_routine.cpp:599-643 | every suspended coroutine other than the new one stays either intact occupant or fully saved, a coroutine that has run before finds the live stack it left, a first start changes no byte of the stack memory, and the memory keeps its size |
| SharedStack.Env.Resume | cocgi/cocgi_lib/libco/co_routine.cpp:547-559 | keeps that invariant over any run; the resumed coroutine's stack is what it was when it last left, in memory of the same size |
| SharedStack.Env.Yield | cocgi/cocgi_lib/libco/co_routine.cpp:561-571 | the same for the coroutine below on the call stack |
| FunctorQueue.InvStep | mucgi/muduo_net/EventLoop.cc:102-168 | every step of every thread keeps the invariant: unrun functors in push order, and a signal for what is pending whenever the loop may be about to wait |
| FunctorQueue.NoLostWakeup | mucgi/muduo_net/EventLoop.cc:157-168 | in every reachable state about to poll with something pending, apart from what the loop thread queued before loop(), the wakeup counter is positive or a thread is between push and wakeup |
| FunctorQueue.RunInPushOrder | mucgi/muduo_net/EventLoop.cc:296-311 | over every run, what has run is a prefix of what was pushed: in order, each at most once |
| FunctorQueue.EarlyFunctorsWait | mucgi/muduo_net/EventLoop.cc:157-168 | the exception is real: a run in which the loop polls with a functor pending and no signal |
| FunctorQueue.TurnRunsAll | mucgi/muduo_net/EventLoop.cc:102-127 | a turn undisturbed by other threads can always be completed and runs everything that was pending, in order |
| FunctorQueue.EveryTurnRunsAll | mucgi/muduo_net/EventLoop.cc:102-127 | whatever other threads do meanwhile, in every run from a poll to the end of doPendingFunctors all that was pushed before the poll has run, in order and first |
| OrderedTimers.ListedIsSorted | mucgi/muduo_net/TimerQueue.cc:198-218 | iterating the timer set visits every entry once, by time and then address |
| TimerQueues.HowMuchTimeFromNow | mucgi/muduo_net/TimerQueue.cc:42-56 | the timespec is the difference in nanoseconds, at least 100 microseconds, normalised and never the value that would disarm the timer |
| TimerQueues.AgreeSizes | mucgi/muduo_net/TimerQueue.cc:157-175 | two indexes that describe the same timers have the same size, as the code asserts |
| TimerQueues.TimerQueue.Insert | mucgi/muduo_net/TimerQueue.cc:252-276 | both sets gain the timer, which was in neither, and the result says exactly whether the earliest time has changed |
| TimerQueues.TimerQueue.AddTimerInLoop | mucgi/muduo_net/TimerQueue.cc:146-155 | both sets gain the timer under its expiration; the descriptor is set exactly when the timer is the new earliest, and outside a batch stays armed for the earliest |
| TimerQueues.TimerQueue.CancelInLoop | mucgi/muduo_net/TimerQueue.cc:157-175 | exactly the timer of that id is freed, once; a stale id frees nothing and is only noted while callbacks run |
| TimerQueues.TimerQueue.GetExpired | mucgi/muduo_net/TimerQueue.cc:198-218 | the batch is exactly the timers not later than now, in order, and both sets lose exactly those |
| TimerQueues.TimerQueue.BeginHandleRead | mucgi/muduo_net/TimerQueue.cc:177-187 | the batch is taken and the cancellations start empty, with the invariant kept |
| TimerQueues.TimerQueue.RunActions | mucgi/muduo_net/TimerQueue.cc:187-193 | any sequence of creations, additions and cancellations while the batch runs leaves the batch's timers as they were and notes of them exactly those cancelled; an active timer is freed if its own id is cancelled and otherwise stays active as it was |
| TimerQueues.TimerQueue.ResetAll | mucgi/muduo_net/TimerQueue.cc:224-239 | exactly the repeating timers not cancelled meanwhile come back, one interval after now; all others of the batch are freed |
| TimerQueues.TimerQueue.EndHandleRead | mucgi/muduo_net/TimerQueue.cc:193-250 | the batch is dealt with so, timers outside it are untouched, and a non-empty set leaves the descriptor armed no later than the earliest expiration up to the floor |
| TimerQueues.TimerQueue.ResetTimerfd | mucgi/muduo_net/TimerQueue.cc:69-82 | the deadline is the expiration, or the floor after the clock if that is later |
| TimerQueues.TimerQueue.HandleRead | mucgi/muduo_net/TimerQueue.cc:177-250 | whatever timers callbacks and other threads create, add and cancel meanwhile: of the timers due, exactly those that repeat and were not cancelled in it are active again, one interval on, and all others are freed; an active timer not due is freed if its id is cancelled and otherwise stays active as it was; freed ids stay freed |
| TimerQueues.OneFate | mucgi/muduo_net/TimerQueue.cc:157-276 | in every state of the queue each id ever handed out is exactly one of waiting, active, in the batch or freed, and any other id none of these; the two sets have equal size |
| Buffers.IntRoundTrip | mucgi/muduo_net/Buffer.h:224-325 | a signed number of any width that fits survives being appended and read back in network order |
| Buffers.Buffer.constructor | mucgi/muduo_net/Buffer.h:48-56 | an empty buffer |
| Buffers.Buffer.Retrieve | mucgi/muduo_net/Buffer.h:113-124 | drops the first bytes |
| Buffers.Buffer.RetrieveAll | mucgi/muduo_net/Buffer.h:153-157 | drops everything |
| Buffers.Buffer.RetrieveAsString | mucgi/muduo_net/Buffer.h:164-170 | returns the first bytes and drops them |
| Buffers.Buffer.EnsureWritableBytes | mucgi/muduo_net/Buffer.h:194-201 | room for len bytes, contents unchanged, and the assertion on the compaction path never fails |
| Buffers.Buffer.MakeSpace | mucgi/muduo_net/Buffer.h:390-409 | there is room for len more bytes and the contents are unchanged, by growth or by an overlapping move to the front |
| Buffers.Buffer.MoveToFront | mucgi/muduo_net/Buffer.h:399-408 | copying front to back within the vector keeps the contents although source and target overlap |
| Buffers.Buffer.Append | mucgi/muduo_net/Buffer.h:177-187 | the contents gain the data at the end |
| Buffers.Buffer.AppendInt | mucgi/muduo_net/Buffer.h:224-248 | the contents gain the number's bytes in network order |
| Buffers.Buffer.Prepend | mucgi/muduo_net/Buffer.h:354-360 | the contents gain the data at the front |
| Buffers.Buffer.Unwrite | mucgi/muduo_net/Buffer.h:215-219 | drops the last bytes |
| Buffers.Buffer.Shrink | mucgi/muduo_net/Buffer.h:362-369 | a new vector with the same contents and at least the reserve |
| Buffers.Buffer.PeekInt | mucgi/muduo_net/Buffer.h:290-325 | the signed number in the first bytes, which stay |
| Buffers.Buffer.ReadInt | mucgi/muduo_net/Buffer.h:254-284 | reads and drops a signed network-order number |
| Buffers.Buffer.ReadFd | mucgi/muduo_net/Buffer.cc:25-57 | the contents gain exactly what was read, whether or not it spilled into the second segment; an error changes nothing |
| TcpConnections.TcpConnection.SendInLoop | mucgi/muduo_net/TcpConnection.cc:139-192 | bytes written followed by bytes waiting gain exactly the message, also while a shutdown is pending; write events are asked for exactly while something waits; the socket is tried at once exactly when nothing waits; a half-closed, broken or closed connection takes nothing |
| TcpConnections.TcpConnection.Send | mucgi/muduo_net/TcpConnection.cc:94-132 | a message is accepted exactly on a connected connection |
| TcpConnections.TcpConnection.Shutdown | mucgi/muduo_net/TcpConnection.cc:194-213 | half-closes at once exactly when nothing waits |
| TcpConnections.TcpConnection.HandleWrite | mucgi/muduo_net/TcpConnection.cc:368-406 | offers the socket all that waits, moves what it takes from waiting to written in order, and half-closes when a pending shutdown finds nothing waiting any more |
| TcpConnections.RunOps | mucgi/muduo_net/TcpConnection.cc:139-213 | over every sequence of sends, write events and shutdowns: written plus waiting is exactly what was sent before the first shutdown, in order, and the half-close is issued exactly when there was one and nothing waits |
| RequestCodec.MaskedInt32 | mucgi/fastcgi.cpp:99-124 | reading a signed 32-bit number and masking it gives the 31-bit length, so it never equals the failure value |
| RequestCodec.FastCgiCodec.ReadLen | mucgi/fastcgi.cpp:99-124 | a length below 2^31, or the failure value with nothing consumed |
| RequestCodec.FastCgiCodec.ReadPair | mucgi/fastcgi.cpp:76-97 | one turn of the loop takes exactly the next pair, or fails having consumed what the reference says |
| RequestCodec.FastCgiCodec.ParseAllParams | mucgi/fastcgi.cpp:76-97 | the map gains the pairs of the decoded prefix, later ones winning; success exactly when all of it decodes; the sum of two lengths never wraps |
| RequestCodec.FastCgiCodec.Dispatch | mucgi/fastcgi.cpp:238-255 | the effect of one whole record on the codec's fields is the reference's |
| RequestCodec.FastCgiCodec.OneRecord | mucgi/fastcgi.cpp:229-262 | a whole record at the front has the reference's effect and is consumed with its padding; a partial one changes nothing |
| RequestCodec.FastCgiCodec.ParseRequest | mucgi/fastcgi.cpp:227-264 | every whole record in the buffer is processed in order and exactly the partial one stays |
| RequestCodec.FastCgiCodec.OnMessage | mucgi/fastcgi.h:27-44 | one callback with the collected map and input when a request is complete, then a clean codec and a shutdown unless the connection is kept |
| RequestCodec.ProcessAppend | mucgi/fastcgi.cpp:227-264 | records processed in two batches leave the codec as in one |
| RequestCodecTheorems.ProcessContent | mucgi/fastcgi.cpp:50-74 | records before a terminator only collect content, stream by stream |
| RequestCodecTheorems.ProcessKeep | mucgi/fastcgi.cpp:273-289 | the keep flag after any records is the one of the last begin record for a responder, if there is one |
| RequestCodecTheorems.RequestAtOnce | mucgi/fastcgi.cpp:50-97 | a whole request adds exactly the encoded map and the exact input to whatever the codec holds |
| RequestCodecTheorems.ProperPart | mucgi/fastcgi.cpp:227-264 | a proper part of a request's bytes frames to a proper part of its records |
| RequestCodecTheorems.ManyRequests | mucgi/fastcgi.h:27-44 | any number of requests on a connection, in any pieces such that one that completes a request holds no whole record of the next, leave the codec and the connection as if each had been served on its own |
| RequestCodecTheorems.OneByOneCalls | mucgi/fastcgi.h:27-44 | that is one callback for each, in order, with its own map and input |
| RequestCodecTheorems.RequestTheorem | mucgi/fastcgi.h:27-44 | in whatever non-empty pieces a single request arrives, the callback runs exactly once, with the encoded map (last duplicate wins) and the exact input; the codec is clean again and shuts down unless keep |
| RequestCodecTheorems.AllAtOnce | mucgi/fastcgi.h:27-44 | any number of requests in one piece give a single callback with their maps merged and their inputs joined, which is what serving each would call exactly when there is one |
| RequestCodecTheorems.CallbackBalance | mucgi/fastcgi.h:27-44 | for any bytes in any pieces, well-formed or not, every input terminator is called back for, or stands in a piece behind another one: callbacks and those together are all the terminators |
| RequestCodecTheorems.Serve | mucgi/fastcgi.h:27-44 | the same on the objects: buffer, codec and connection, for every way of reading |
| Respond.StdoutsCarry | mucgi/fastcgi.cpp:172-218 | stdout records of at most 65535 bytes, each a multiple of eight long, as few as can carry the output and carrying exactly it |
| Respond.ResponseTheorem | mucgi/fastcgi.cpp:158-225 | framing a response leaves nothing over and gives such records for the output (the fixed page if it is empty), then one empty stdout record, then one end-request record |
| Respond.AppendOutput | mucgi/fastcgi.cpp:172-218 | the three branches and the loop put exactly those stdout records into the buffer |
| Respond.EndStdout | mucgi/fastcgi.cpp:128-140 | appends one empty stdout record |
| Respond.EndRequestRecord | mucgi/fastcgi.cpp:142-156 | appends one end-request record with status zero |
| Respond.RespondTo | mucgi/fastcgi.cpp:158-225 | appends exactly one response and replaces an empty output by the fixed page |
| Calendar.DateRoundTrip | mucgi/muduo_base/Date.cc:20-42 | every Gregorian date from 1 March -4800 on survives conversion to a day number and back |
| Calendar.NumberRoundTrip | mucgi/muduo_base/Date.cc:29-42 | every day number from -32044 on gives a proper Gregorian date that converts back to it |
| Calendar.NextDayFollows | mucgi/muduo_base/Date.cc:20-27 | the calendar's next day, over month ends, year ends and all leap rules, has the next number |
| Calendar.CountingDays | mucgi/muduo_base/Date.cc:20-44 | the day k past the epoch is the k-th successor of 1 January 1970, and its weekday is Thursday plus k |
| Calendar.OrderIsDayOrder | mucgi/muduo_base/Date.h:107-110 | dates are ordered as their numbers are |
| Calendar.WeekDayExact | mucgi/muduo_base/Date.h:96-99 | a weekday in 0..6 if and only if the day is at least -1 or a Sunday; from there on weekdays follow one another |
| Calendar.WeekDayFails | mucgi/muduo_base/Date.h:96-99 | day -2 is given weekday -1 |
| Calendar.FillHMS | mucgi/muduo_base/TimeZone.cc:71-77 | hour, minute and second in range that add up to the seconds, other fields untouched |
| Calendar.ToUtcTime | mucgi/muduo_base/TimeZone.cc:317-343 | truncating division with the sign fix-up gives the flooring broken-down time for every instant |
| Calendar.InstantRoundTrip | mucgi/muduo_base/TimeZone.cc:317-358 | every instant from day -32044 on, negative ones included, gives a proper time that converts back to it |
| Calendar.TimeRoundTrip | mucgi/muduo_base/TimeZone.cc:345-358 | every proper broken-down time survives conversion to seconds and back |
| Calendar.DayOfYearCounts | mucgi/muduo_base/TimeZone.cc:337-341 | from the year -4799 on the day of the year is the sum of the month lengths before it plus the day |
| Calendar.YdayExact | mucgi/muduo_base/TimeZone.cc:337-341 | tm_yday is right if and only if the instant is not before 1 January -4799 |
| Calendar.YdayFails | mucgi/muduo_base/TimeZone.cc:337-341 | 1 March -4800, day 60 of its year, is given as day 59 |
| FormCodec.HexRoundTrip | mucgi/cgicc_lib/CgiUtils.cpp:76-103 | a byte written as two hex digits reads back |
| FormCodec.HexPairRoundTrip | mucgi/cgicc_lib/CgiUtils.cpp:76-103 | two hex digits read as a byte are written back in upper case |
| FormCodec.UrlRoundTrip | mucgi/cgicc_lib/CgiUtils.cpp:138-208 | decoding undoes encoding on every byte string |
| FormCodec.EncodedIsSafe | mucgi/cgicc_lib/CgiUtils.cpp:138-174 | encoded text holds only unreserved characters, plus and percent signs |
| FormCodec.FormUrlEncode | mucgi/cgicc_lib/CgiUtils.cpp:138-174 | the loop computes the byte-by-byte encoding |
| FormCodec.FormUrlDecode | mucgi/cgicc_lib/CgiUtils.cpp:176-208 | the loop computes the decoding, passing a percent sign through unless two hex digits follow it |
| FormCodec.Find | mucgi/cgicc_lib/Cgicc.cpp:332-343 | the first occurrence, or none |
| FormCodec.FormRoundTrip | mucgi/cgicc_lib/Cgicc.cpp:321-357 | parsing the encoded form of any list of entries gives that list in order, empty names and values and the empty list included |
| FormCodec.Cgicc.ParseFormInput | mucgi/cgicc_lib/Cgicc.cpp:321-357 | the form data gains exactly the parsed entries, in order |

## Left out

- StreamReader.InStream.ProcessHeader: stops at a management record (`fastcgi/fastcgi_lib/fcgiapp.cpp` 1449-1502) with a code of the model's own, -100; the promises of the reader are about streams without them.
- `FCGX_UnGetChar`, `FCGX_GetLine`, the printf family, `FCGX_GetParam` and environment detection: easy scans or varargs.
- The one `FCGX_Stream` structure is two classes here, a reader and a writer; using one as the other is not modelled.
- Accept.ReadParams: does not model allocation failure or the `int` overflow of name length plus value length plus two in the size of an entry.
- AcceptTheorems.PaddingExact: is about padding whose first byte is not 1; padding that starts with 1 may itself read as records, and nothing simple decides what then becomes of the request.
- Accept.AcceptRequest: the listening socket is a list of connections, a kept one being the first; accept errors and peer filtering are not modelled.
- AcceptTheorems.KeptCut: is about a cut before a byte other than 1; before a 1 the middle of a record may itself read as records.
- Bytes written after a failed write: the writers' promises are about a descriptor whose writes succeed.
- CoEventLoop.EventLoop.ExpireTimeouts: like every pass here is about passes whose gap counts right; beyond that the wheel's timing is lost and TakeAllTimeout says what is taken instead.
- TimingWheel.Wheel.AddTimeout: requires a positive clock, which a clock counted from 1970 is.
- CoEventLoop.EventLoop.Pass: is about callbacks that touch no list; CoEventLoopRuns.Run takes a pass apart and lets registrations and events come between its turns, as callbacks make them.
- Register-level context switches, condition variables, hooked system calls and the freeing of coroutines in libco; a switch is an abstract step.
- SharedStack.Env.Resume: requires that the coroutine is not on the call stack and that fewer than 128 are, as the library assumes.
- `quit`, `runInLoop`, channels, pollers and the acceptor of muduo; handlers other than the wakeup channel's do nothing but queue functors.
- TimerQueues.TimerQueue.BeginHandleRead: the callbacks are the queue operations between it and EndHandleRead; what else they do is outside, and the clock reading is positive.
- Timer intervals are microseconds as a whole number, not the `double` of seconds the library multiplies.
- TcpConnections.RunOps: sends come from the loop thread; a send queued by another thread that arrives after a shutdown is covered by SendInLoop alone.
- TcpConnections.TcpConnection: no close, high-water and write-complete callbacks, no reading side, no sends from other threads (these queue a functor that sends in the loop).
- RequestCodec: the callback is recorded, not run, and leaves the codec's fields alone.
- Calendar: `int` wrap-around, which starts more than a million years away from the epoch; time zone files and local time.
- FormCodec.Cgicc.ParseFormInput: the urlencoded branch alone; choosing it by content type, multipart input and cookies are left out.
- Logging, thread wrappers, sockets, the acceptors and the programs' main loops: plumbing with easy members only.
