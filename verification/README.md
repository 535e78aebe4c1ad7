# A verified model of sthread

sthread is a single-OS-thread coroutine scheduler for C++ with wire codecs around it. This project models
its core in Dafny and proves what it promises over whole runs; where the code keeps less than it promises, it
proves exactly when it keeps it. `dafny verify dfyconfig.toml` checks everything. Nothing is executed.

Each part comes in two forms. A module on values (`SchedModel`, `EventModel`, `PollModel`, `HookModel`,
`ChannelModel`, `RespModel`, `HttpBody`, `UrlModel`, `DnsNames`, ...) says what every operation does, and the
theorems are about it. A module of classes and loops (`ThreadSchedule`, `EventSchedule`, `SysCalls`,
`SleepHeap`, `PollBackends`, `SysFiles`, `Channels`, `RespParser`, `HttpExecute`, `HttpRead`, `UrlParser`,
`DnsCodec`) updates fields, buffers and queues in place as the source does, and each method is proved to turn
the view of its object into what the module on values says.

- **The scheduler.** Four intrusive queues, flag bits and the position-indexed sleep heap record where a
  coroutine is three times over; every operation keeps the three in step. A run is a sequence of steps, each a
  call of src/st_sys.cc cut at the switch in `Yield`, or a turn of the daemon; the clock and the kernel's
  answers are the environment's choice. Proved over every run: the invariant, conservation and safe reuse of
  stacks, that no notification is lost, the order of wakeups, the fairness of the run queue, the poll timeout.
  A step that sleeps or waits assumes that the sleep heap has room, and the end of a last child that its
  parent is pended, as the code does; `SchedLimits` proves that these are exactly the conditions.
- **Events.** The table from descriptors to items over the poll state, adding and deleting queues with
  rollback, dispatch, and the two poll backends, each of whose cached masks must equal the kernel's
  registrations; the items that the system hooks register for a descriptor and give back when it closes.
- **Waits.** `WaitModel` joins the two: a run of the scheduler, the event table, and who has which item in its
  fd set. Proved over every run in which nobody waits for what another coroutine waits for: the kernel watches
  for every waiter and its events wake it. That condition is exact, and what happens without it is proved, too.
- **The structures under it.** The indexed heap against multisets, the tail queue and the chained hash with
  their pointers.
- **Wire codecs.** RESP2 streaming under every cut of the stream (Redis serialization protocol specification,
  sections "Bulk strings" and "Arrays"), the body states of the HTTP parser (section 3.6.1 of RFC 2616), its
  URL splitter (section 3 of RFC 3986) and a DNS lookup from end to end (sections 3.1 and 4.1.1 to 4.1.4 of
  RFC 1035).
- **The libtask channel**: alternatives over several channels with blocked senders and receivers.

Integers are unbounded; where the width matters it is written out: the poll timeout is cast to 32 bits, a
content length has 64 bits with the limits of the code's overflow tests, a URL field 16, a label length 8.

## What is not as one would expect

- `st_sleep(0)` and an unlimited wait lead to polls without a limit: the poll's argument is 0 or less
  (`DaemonPoll.SleepZeroPollsWithoutLimit`, `DaemonPoll.WaitForeverPollsWithoutLimit`; `StepAhead` and
  `PollIsBounded` say exactly when not).
- A full sleep heap loses the sleeper's deadline, and `Unpend` queues whatever it is given
  (`SchedLimits.FullHeapIsReachable`, `SchedLimits.UnpendAtStart`).
- kqueue's `AddEvent` leaves cache and kernel different when the second of its two changes is refused
  (`PollModel.KqueueRefines`, `PollModel.HalfDoneHappens`).
- `sys_shutdown` of a hooked descriptor drops its item, which nobody gives back to its pool any more
  (`HookModel.ShutdownLosesItem`, `HookModel.StepAccounts`).
- The events recorded in an item are not cleared before a wait, so a wait that times out can report its
  descriptor ready (`WaitTheorems.WaitReports`, `WaitLimits.TimeoutReportsReady`).
- A second wait for a descriptor somebody waits for takes the events from the first and reports a timeout
  itself (`WaitTheorems.SecondWaiter`, `WaitTheorems.FirstIsForgotten`).
- A live key whose hash value is 0 can be inserted again and turns its chain into a ring
  (`HashList.StHashList.HashInsert`, `HashList.InsertTwice`).
- The port of a URL is read past the end of the buffer when the buffer ends with the port: `UrlPort` says
  exactly when it is not the number its digits spell, `UrlPort.PortOfTheNextByte` gives an input.
- The fields of a URL have 16 bits, so those of a URL of 65536 bytes can be wrong (`UrlModel.SizeLimit`).
- A fragment directly behind the authority is refused (`UrlCompose.SplitAfterCompose`), and a CONNECT target may
  have an `@` in front and a question mark behind (`UrlAccept.AcceptedIsComposed`, `UrlAccept.ConnectTakesMore`).
- A call of the HTTP parser without bytes inside a body of known length is an error
  (`HttpDecode.CutsExact`).
- The last line of a chunked body may end without CR (`HttpAccept.OnlyChunksComplete`).
- A hex digit table with 128 initialisers makes bytes from 128 on count as the digit 0 in a chunk size
  (`HttpDecode.SizeDigits`, `HttpDecode.HighByteIsASize`).
- A RESP number line without a number takes its value from the next line (`RespLimits.EmptyNumberReadsOn`).
- A DNS record that is neither an address nor an alias ends the lookup successfully, even without an address
  (`DnsAnswers.OtherTypeStops`).

## Model

| member | source | states |
|---|---|---|
| `SchedTheorems.EveryReachableState` | src/st_thread.cc:19-305 | in every state any run can reach the run, io, pend and reclaim queues are duplicate-free and pairwise disjoint, each flag is set exactly for the members of its queue or of the sleep heap, io waiters are in the heap, runnable, pended and reclaimed ones are not, and the active coroutine and the daemon are nowhere |
| `SchedRuns.StepKeeps` | src/st_sys.cc:16-500 | every step of a run (each call cut at its switch, each turn of the daemon) keeps that invariant |
| `SchedTheorems.PoolConserved` | stlib/st_util.h:97-137 | in every reachable state total = idle + reclaimed + in use, idle stays within its limit and at most one coroutine waits to be deleted |
| `SchedTheorems.PoolPlaces` | stlib/st_util.h:97-125 | a pool member is in exactly one of the three places |
| `SchedTheorems.PoolParts` | stlib/st_util.h:97-125 | the counter m_total_ is the sum of the three parts |
| `SchedTheorems.OnlyReclaimedAreDeleted` | src/st_thread.cc:42-81 | a coroutine that disappears in a step was on the reclaim queue and never active, queued, asleep, idle, the daemon or the primordial one |
| `SchedTheorems.StickyBitIsPending` | src/st_sys.cc:405-437 | over every run the sticky bit of a coroutine is set exactly when a notification is pending for it: repeats merge, none is lost, none invented |
| `SchedTheorems.WaitsReportExactly` | src/st_sys.cc:405-492 | whenever st_notify_wait or st_wait returns, at once or after parking, it reports a notification if and only if one is pending, and then none is; it parks with none pending |
| `SchedTheorems.NotifiedWaiterIsQueued` | src/st_thread.cc:246-267 | no coroutine parked in these calls stays in the heap or the io queue with a notification pending: it is queued or active |
| `SchedTheorems.QueuedMovesUp` | src/st_thread.cc:84-97 | a queued coroutine moves up by exactly one at each switch and keeps its place at every other step |
| `SchedTheorems.QueuedGetsToRun` | src/st_thread.cc:84-97 | in a run with more than i switches the coroutine queued at place i becomes active |
| `SchedOps.WakeTopKeeps` | src/st_thread.cc:279-293 | one pass of Wakeup moves exactly the coroutine at the top out of heap and io queue to the end of the run queue |
| `SchedOps.WakeupExact` | src/st_thread.cc:279-293 | Wakeup(now) ends, appends exactly the coroutines due by now in non-decreasing deadline order, takes them out of heap and io queue, and leaves only later deadlines |
| `SchedOps.ReapExact` | src/st_thread.cc:42-63 | ReapReclaim deletes exactly the reclaimed coroutines other than the active one, which stays reclaimed |
| `SchedOps.YieldExact` | src/st_thread.cc:84-97 | after a switch the head of the run queue, or the daemon, is active, and nothing else changes but the reaping |
| `SchedLifecycle.NotifyExact` | src/st_thread.cc:246-267 | st_notify sets the bit of its target and moves it to the run queue exactly when it slept or waited; the invariant survives |
| `SchedLifecycle.ShelveKeeps` | src/st_thread.cc:19-81 | a recycled coroutine is reset and idle, or last on the reclaim queue when the pool is full; the invariant survives |
| `SchedLifecycle.AllocKeeps` | src/st_thread.h:358-365 | allocation reuses the longest idle coroutine or adds one new to the total; the invariant survives |
| `SchedLifecycle.AddSubKeeps` | src/st_poll.h:250-264 | adding a sub-thread keeps list, parent pointer and flag in step |
| `SchedLifecycle.RemoveSubKeeps` | src/st_poll.h:250-264 | so does removing one |
| `SchedLifecycle.WakeupParentKeeps` | src/st_thread.cc:269-277 | when a child ends its parent loses it; the invariant survives, for a parent that is pended when it was the last |
| `SchedEffects.WakeupParentExact` | src/st_thread.cc:269-277 | the parent is queued, last, if and only if the child was its only one; else it stays where it was; nobody else moves |
| `SchedEffects.FinishWakesParent` | src/st_thread.h:312-328 | so of the whole end of a coroutine: the pended parent of the last child is in the run queue or active afterwards, and a parent with more children stays pended |
| `SchedEffects.AddSubExact` | src/st_poll.h:250-257 | a sub-thread added is last in the list, knows its parent and has its flag; nothing else changes |
| `SchedEffects.RemoveSubExact` | src/st_poll.h:258-264 | one removed is out of the list and knows no parent; nothing else changes |
| `SchedEffects.CreateExact` | src/st_thread.cc:295-305 | a new coroutine is the one that has been idle longest, or one more with a fresh record; it is last in the run queue if and only if it is runnable |
| `SchedEffects.PendExact` | src/st_thread.cc:118-131 | a pended coroutine is last in the pend queue; the head of the run queue, or the daemon, is switched to if and only if it was the active one |
| `SchedEffects.RecycleExact` | src/st_thread.cc:65-81 | a recycled coroutine is the last idle one with a fresh record, or waits to be deleted when the pool is full; the head of the run queue, or the daemon, runs |
| `SchedEffects.ParksUntil` | src/st_sys.cc:405-500 | a call that parks puts its coroutine and nobody else into the heap, with now plus its time as deadline, 2^31-1 ms for a negative time |
| `SchedEffects.ReturnsAtOnce` | src/st_sys.cc:405-480 | a call that does not park moves nobody: it takes the notification bit, or leaves its deadline behind when the item could not be added, or changes nothing when st_notify_wait has no time |
| `SchedEffects.ComesBack` | src/st_sys.cc:405-492 | a coroutine that comes back from a wait takes its notification, and nobody moves |
| `SchedEffects.RemoveRunableExact` | src/st_thread.cc:193-202 | a queued coroutine leaves the run queue and nothing else changes; the invariant survives |
| `SchedEffects.TurnWakesDue` | src/st_thread.cc:279-293 | a turn of the daemon takes a sleeper out of the heap if and only if its deadline has come or it waited for a descriptor and an event was for it; then it is queued or runs |
| `SchedLimits.SleepNeedsRoom` | src/st_thread.cc:99-116 | the ignored result of HeapPush: going to sleep keeps the invariant if and only if the heap has room; without room the sleeper keeps its flag and no deadline |
| `SchedLimits.IoWaitNeedsRoom` | src/st_thread.cc:168-179 | the same for an io wait |
| `SchedLimits.UnpendNeedsPended` | src/st_thread.cc:133-143 | for a coroutine that is pended or linked nowhere, Unpend keeps the invariant if and only if it is pended, or is parked nowhere and neither active, nor the daemon, nor idle |
| `SchedLimits.FullHeapIsReachable` | src/st_thread.cc:99-116 | a run from the start that fills the heap, whatever its capacity: the coroutine that runs then can neither sleep nor wait for a descriptor without losing its deadline |
| `SchedLimits.UnpendAtStart` | src/st_thread.cc:133-143 | right at the start Unpend puts the active coroutine, or the daemon, on the run queue |
| `SchedLimits.ChildOutlivesParent` | src/st_poll.h:130-146 | a coroutine that takes a child and ends leaves the tree of sub-threads wrong |
| `SchedLimits.ResetNeedsNoChildren` | src/st_poll.h:130-146 | a coroutine that ends keeps the tree of sub-threads right if and only if it has no children left |
| `DaemonPoll.StepAhead` | src/st_sys.h:67-115 | every deadline stays at least 1 ms ahead of the daemon's clock through a step if and only if the step is timely: the deadline it sets is ahead of the last reading, the clock does not step back |
| `DaemonPoll.DeadlinesStayAhead` | src/st_sys.h:67-115 | so over every timely run |
| `DaemonPoll.PollIsBounded` | src/st_thread.cc:583-605 | after a timely run, while someone sleeps the time left is at least 1 ms and the poll lasts the smaller of it and 30 s when it fits an int, and has no limit past that up to 2^32; with nobody asleep it lasts 1 s |
| `DaemonPoll.TimeLeft` | src/st_sys.h:67-79 | in any state the timeout is the time left to the earliest deadline, or 0 when that is past |
| `DaemonPoll.SleepZeroPollsWithoutLimit` | src/st_sys.cc:494-500 | a concrete run in which st_sleep(0) makes the daemon poll without a limit |
| `DaemonPoll.WaitForeverPollsWithoutLimit` | src/st_sys.cc:405-428 | a concrete timely run in which the time left to an unlimited wait overflows an int and the poll has no limit |
| `ThreadSchedule.StThreadSchedule.constructor` | src/st_thread.h:25-30 | a scheduler with two coroutines, empty queues and heap |
| `ThreadSchedule.StThreadSchedule.InsertRunable` | src/st_thread.cc:181-191 | in place: the view becomes the view with the coroutine last in the run queue; the macro's demand that it is linked nowhere else is a precondition |
| `ThreadSchedule.StThreadSchedule.RemoveRunable` | src/st_thread.cc:193-202 | in place: out of the run queue |
| `ThreadSchedule.StThreadSchedule.InsertSleep` | src/st_thread.cc:224-234 | in place: flag and heap, the heap's answer ignored |
| `ThreadSchedule.StThreadSchedule.RemoveSleep` | src/st_thread.cc:204-222 | in place: out of the heap at the stored index |
| `ThreadSchedule.StThreadSchedule.InsertIOWait` | src/st_thread.cc:168-179 | in place: io queue, then heap |
| `ThreadSchedule.StThreadSchedule.RemoveIOWait` | src/st_thread.cc:156-166 | in place: out of both |
| `ThreadSchedule.StThreadSchedule.IOWaitToRunable` | src/st_thread.cc:145-154 | in place: from io queue and heap to the run queue |
| `ThreadSchedule.StThreadSchedule.InsertPend` | src/st_thread.cc:118-131 | in place: the pend queue |
| `ThreadSchedule.StThreadSchedule.Unpend` | src/st_thread.cc:133-143 | in place: from the pend queue to the run queue |
| `ThreadSchedule.StThreadSchedule.Notify` | src/st_thread.cc:246-267 | in place: sets the sticky bit and wakes any sleeper or io waiter but the active coroutine |
| `ThreadSchedule.StThreadSchedule.WakeTop` | src/st_thread.cc:279-293 | in place: one pass of the loop in Wakeup |
| `ThreadSchedule.StThreadSchedule.Wakeup` | src/st_thread.cc:279-293 | in place: the loop equals the Wakeup proved exact above |
| `ThreadSchedule.StThreadSchedule.ReapOne` | src/st_thread.cc:42-63 | in place: one pass of the loop in ReapReclaim |
| `ThreadSchedule.StThreadSchedule.ReapReclaim` | src/st_thread.cc:42-63 | in place: the loop equals the ReapReclaim proved exact above |
| `ThreadSchedule.StThreadSchedule.PopRunable` | src/st_thread.cc:236-244 | in place: the head of the run queue |
| `ThreadSchedule.StThreadSchedule.Yield` | src/st_thread.cc:84-97 | in place: reap, then the switch |
| `ThreadSchedule.StThreadSchedule.Sleep` | src/st_thread.cc:99-116 | in place: asleep, and the switch when it is the active coroutine |
| `ThreadSchedule.StThreadSchedule.Pend` | src/st_thread.cc:118-131 | in place: pended, and the switch when it is the active coroutine |
| `ThreadSchedule.StThreadSchedule.SetWakeupTime` | src/st_poll.h:185-191 | in place: the key a coroutine will have in the heap |
| `ThreadSchedule.StThreadSchedule.AddSubStThread` | src/st_poll.h:250-257 | in place: links the child to its parent |
| `ThreadSchedule.StThreadSchedule.RemoveSubStThread` | src/st_poll.h:258-264 | in place: unlinks it |
| `ThreadSchedule.StThreadSchedule.WakeupParent` | src/st_thread.cc:269-277 | in place: removes the child; a parent whose last one it was goes from the pend queue to the end of the run queue |
| `ThreadSchedule.StThreadSchedule.DetachForReuse` | src/st_thread.cc:19-40 | in place: off every queue, out of the heap, away from the parent |
| `ThreadSchedule.StThreadSchedule.Reset` | src/st_poll.h:130-146 | in place: every field as new, out of whatever queue it names |
| `ThreadSchedule.StThreadSchedule.Recycle` | src/st_thread.cc:65-81 | in place: detach, reset, pool or reclaim queue, switch |
| `ThreadSchedule.StThreadSchedule.AllocThread` | src/st_thread.h:358-365 | in place: the oldest idle coroutine, else a new one |
| `ThreadSchedule.StThreadSchedule.CreateThread` | src/st_thread.cc:295-305 | in place: allocates and queues |
| `ThreadSchedule.UtilPtrPool.AllocPtr` | stlib/st_util.h:115-125 | the oldest idle object, or a new one and the total grows |
| `ThreadSchedule.UtilPtrPool.PushIdle` | stlib/st_util.h:102-106 | appends to the idle objects |
| `ThreadSchedule.UtilPtrPool.NoteDestroyed` | stlib/st_util.h:109-113 | the total falls, not below zero |
| `SysCalls.StSysSchedule.GetTimeout` | src/st_sys.h:67-79 | one second when nobody sleeps, else the time left to the earliest deadline, not below zero |
| `SysCalls.StSysSchedule.Turn` | src/st_sys.h:91-116 | one turn of StartUp on the objects is the daemon's step of the run |
| `SysCalls.StSysSchedule.StSleep` | src/st_sys.cc:494-500 | st_sleep on the objects is the step of the run, up to its switch |
| `SysCalls.StSysSchedule.StNotifyWaitBegin` | src/st_sys.cc:405-428 | so is st_notify_wait: 0 with a notification, -1 when the time is 0, else it parks |
| `SysCalls.StSysSchedule.StNotifyWaitEnd` | src/st_sys.cc:405-428 | and its return after the switch |
| `SysCalls.StSysSchedule.StWaitBegin` | src/st_sys.cc:439-480 | so is st_wait: -2 without an item, the mask at once with a notification, -3 when the item cannot be added, else it parks; then the slot's item is alone in the fd set and the coroutine's, and the kernel watches its descriptor for reading, if that was asked for, else for writing, and for nothing else |
| `SysCalls.StSysSchedule.StWaitEnd` | src/st_sys.cc:480-492 | and its return: the mask of the recorded event and the notification; the interest is deleted and the fd set empty |
| `SysCalls.StSysSchedule.WaitFdReadyBegin` | src/st_sys.cc:16-54 | so is WaitFdReady: -1 past the time, -2 without an item, else it parks, and then the kernel watches the descriptor in the direction asked and no other, or fails to add |
| `WaitTheorems.EveryWaiterIsArmed` | src/st_sys.cc:439-480 | over the scheduler and the event table together: in every state a tidy run can reach, each coroutine on the IO queue has an item in its fd set, which no other coroutine has, which is in the slot of its descriptor, belongs to the coroutine, and whose interest is in the kernel |
| `WaitTheorems.WatchedAsAsked` | src/st_sys.cc:439-480 | over every tidy run a coroutine on the IO queue is registered in the kernel for exactly the direction it asked for in the st_wait or WaitFdReady it is parked in |
| `WaitModel.DoKeeps` | src/st_sys.cc:439-480 | every step keeps that if and only if it is tidy: it waits for, releases or closes nothing that another coroutine has in its fd set |
| `WaitTheorems.EventWakesWaiter` | src/st_thread.cc:515-580 | so an event of its descriptor that is an error or that its handler takes moves the waiter to the run queue |
| `WaitTheorems.OwnersAreAlive` | src/st_thread.cc:515-580 | no event of a registered descriptor is handed to a coroutine that is gone: whoever is reported to is one of those that wait |
| `WaitTheorems.WaitReports` | src/st_thread.cc:660-689 | a wait reports the descriptor ready if and only if an event of it came during the wait or something was recorded in the item before; so the report is right if and only if nothing was recorded before or an event came |
| `WaitTheorems.ReportIsResult` | src/st_sys.cc:480-492 | that report is the descriptor bit of the mask st_wait returns |
| `WaitLimits.TimeoutReportsReady` | src/st_sys.cc:439-492 | a run from the start in which a wait times out without an event and reports the descriptor ready |
| `WaitTheorems.SecondWaiter` | src/st_sys.cc:464-480 | a wait for a descriptor that another coroutine waits for: it takes over owner and interest, parks with an empty fd set and will report a timeout |
| `WaitTheorems.FirstIsForgotten` | src/st_thread.cc:515-580 | after it every event of the descriptor is reported to the second coroutine, and none at all to the first |
| `WaitLimits.SecondWaitHappens` | src/st_sys.cc:439-480 | a run from the start that gets there |
| `WaitModel.BeginIsAdd` | src/st_thread.cc:608-659 | the joint step up to the switch is the Add of the event table for a fd set of one item |
| `WaitModel.EndIsDelete` | src/st_thread.cc:660-689 | from the switch on it is the Delete of its fd set, which is empty afterwards, and the answer says whether an event is recorded in an item of it: none with an empty fd set |
| `TailQ.InsertLinkedElsewhere` | stlib/st_tailq.h:68-78 | on pointers: inserting the only element of another queue leaves it in that queue and the new one empty |
| `HeapModel.TopIsMinimum` | stlib/st_heap.h:157-157 | the top of the heap is a minimum |
| `HeapModel.PushRefinesAdd` | stlib/st_heap.h:83-97 | push keeps the heap order and adds exactly one element to the multiset |
| `HeapModel.DeleteRefinesRemove` | stlib/st_heap.h:116-147 | delete at any position keeps the order and removes exactly the element there |
| `HeapModel.PopIsDeleteTop` | stlib/st_heap.h:99-114 | pop is deletion of the top |
| `HeapModel.PopRefinesExtractMin` | stlib/st_heap.h:99-114 | pop returns a minimum and removes exactly it |
| `SleepHeap.HeapList.HeapResize` | stlib/st_heap.h:64-81 | in place: the elements stay, the room is the larger of the two |
| `SleepHeap.HeapList.Swap` | stlib/st_heap.h:197-203 | in place: exchanges two slots and both stored indices |
| `SleepHeap.HeapList.SiftUp` | stlib/st_heap.h:164-173 | in place: the loop ends and is the sift of the model |
| `SleepHeap.HeapList.SiftDown` | stlib/st_heap.h:175-195 | in place: the loop ends and is the sift of the model |
| `SleepHeap.HeapList.HeapPush` | stlib/st_heap.h:83-97 | in place: -1 when full or already in a heap, else the element is added; slot i holds the element whose index is i |
| `SleepHeap.HeapList.HeapPop` | stlib/st_heap.h:99-114 | in place: the top, whose index becomes 0 |
| `SleepHeap.HeapList.HeapDelete` | stlib/st_heap.h:116-147 | in place: takes the element out wherever its index says, or -1 |
| `SleepHeap.HeapList.HeapTop` | stlib/st_heap.h:157-157 | the element in slot 1, or none |
| `SleepHeap.HeapList.IndexIsPlace` | stlib/st_heap.h:24-26 | an index is 0 exactly for outsiders, else the place of the element |
| `TailQ.Head.Remove` | stlib/st_tailq.h:54-66 | on pointers: the element leaves, its neighbours, the head and the size agree; an unlinked element changes nothing |
| `TailQ.Head.RemoveAt` | stlib/st_tailq.h:54-66 | the pointer writes for a linked element, first, last or between |
| `TailQ.Head.InsertTail` | stlib/st_tailq.h:68-78 | on pointers: the element, unlinked or of this queue, becomes the last one |
| `TailQ.Head.Append` | stlib/st_tailq.h:68-78 | the pointer writes for an unlinked element |
| `TailQ.Head.Pop` | stlib/st_tailq.h:91-95 | takes the first element |
| `TailQ.RemoveSelf` | stlib/st_tailq.h:97-102 | removes an element through the queue it names |
| `PollModel.EpollRefines` | stlib/st_epoll.h:77-146 | AddEvent and DelEvent make the interest exactly the mask, or change nothing when the descriptor is closed or the kernel refuses; the cache stays what the kernel has |
| `PollModel.StaleMaskHeals` | stlib/st_epoll.h:104-146 | deleting the interest in a descriptor the kernel no longer knows succeeds and empties the mask |
| `PollModel.CallEffects` | stlib/st_epoll.h:77-155 | calls for descriptors outside the cache fail and change nothing; sys_close ends the interest in its number alone |
| `PollModel.NoClash` | stlib/st_epoll.h:77-102 | an ADD never meets an existing entry, a MOD or DEL never a missing one |
| `PollModel.KqueueRefines` | stlib/st_kqueue.h:76-117 | the same contract for kqueue if and only if the write filter is not refused after the read filter changed |
| `PollModel.HalfDoneHappens` | stlib/st_kqueue.h:76-109 | a concrete such refusal after which the kernel has a filter that the cache has not |
| `PollModel.CloseKeeps` | app/st_sys.cc:132-150 | sys_close keeps cache and kernel equal; a close around it does so if and only if nothing was registered |
| `PollModel.CacheIsTheKernel` | stlib/st_epoll.h:77-155 | over any sequence of AddEvent, DelEvent, sys_close and reuse of numbers the cached masks are the kernel's registrations |
| `PollModel.BackendsAgree` | stlib/st_kqueue.h:76-125 | both backends return the same and leave the same masks and interest over any sequence of calls on open descriptors that nothing is refused |
| `PollModel.AgreeMeansSameInterest` | stlib/st_kqueue.h:76-125 | masks that agree mean the same interest in both kernels |
| `PollBackends.EpollState.AddEvent` | stlib/st_epoll.h:77-102 | in place on m_file_ and the kernel: the AddEvent of the model |
| `PollBackends.EpollState.DelEvent` | stlib/st_epoll.h:104-146 | in place: the DelEvent of the model |
| `PollBackends.EpollState.ClearFd` | stlib/st_epoll.h:150-155 | in place: forgets the mask of one descriptor |
| `PollBackends.EpollState.SysClose` | app/st_sys.cc:139-150 | the cache first, then the descriptor |
| `PollBackends.KqueueState.AddEvent` | stlib/st_kqueue.h:76-109 | in place: the AddEvent of the model |
| `PollBackends.KqueueState.DelEvent` | stlib/st_kqueue.h:111-117 | in place: the DelEvent of the model |
| `PollBackends.KqueueState.ClearFd` | stlib/st_kqueue.h:120-125 | in place: forgets the mask of one descriptor |
| `EventModel.AddItemExact` | src/st_thread.cc:413-445 | adding an item arms it in the slot of its descriptor after putting another holder out, or fails; only its descriptor is touched |
| `EventModel.DeleteItemExact` | src/st_thread.cc:447-481 | deleting an armed item disarms it; another holder's slot is left alone; only its descriptor is touched |
| `EventModel.AddQueueAllOrNone` | src/st_thread.cc:358-385 | adding a queue of items on different descriptors arms all, or fails at one and then no item before it keeps kernel interest; every descriptor outside is as before |
| `EventModel.DeleteFromDisarms` | src/st_thread.cc:387-411 | deleting a queue gets as far as the first item whose slot another holds, and disarms every armed item before it |
| `EventModel.DeleteQueueDisarms` | src/st_thread.cc:387-411 | deleting a queue of armed items disarms each and touches nothing else |
| `EventModel.DeleteQueueRollsBack` | src/st_thread.cc:387-411 | it succeeds if and only if no other item holds the slot of one; if it fails, the items before are armed again, as far as the kernel agrees, and nothing outside is touched |
| `EventDispatch.EventStepExact` | src/st_thread.cc:515-560 | an event of an unknown descriptor changes nothing, of one without an item ends its interest, else it is recorded; an error also ends the item's interest and empties its slot |
| `EventDispatch.DispatchOneExact` | src/st_thread.cc:515-580 | one fired event wakes exactly the coroutine it is reported to |
| `EventDispatch.DispatchIsWakeOwners` | src/st_thread.cc:515-580 | a batch wakes the owners it is reported to, in order |
| `EventDispatch.DispatchWakesOnce` | src/st_thread.cc:515-580 | for any batch, with several descriptors or both bits for one owner, each owner that was an io waiter enters the run queue exactly once and nobody else does |
| `EventDispatch.ReportedTo` | src/st_thread.cc:515-580 | for any batch, several entries for one descriptor included, a coroutine is reported to if and only if it owns the item in the slot of a fired descriptor, the event is an error, or its input handler succeeds, or its output handler when nothing is to be read, and no error of that descriptor came before it |
| `SchedRuns.WakeOwnersExact` | src/st_thread.cc:145-154 | waking a list of owners queues each that was an io waiter once, in the order of its first event |
| `EventSchedule.StEventSchedule.AddFd` | src/st_thread.cc:483-497 | in place: the AddEvent of the backend |
| `EventSchedule.StEventSchedule.DeleteFd` | src/st_thread.cc:499-513 | in place: the DelEvent of the backend |
| `EventSchedule.StEventSchedule.Add` | src/st_thread.cc:413-445 | in place on table and backend: the AddItem of the model |
| `EventSchedule.StEventSchedule.Delete` | src/st_thread.cc:447-481 | in place: the DeleteItem of the model |
| `EventSchedule.StEventSchedule.ClearItem` | src/st_thread.h:187-195 | in place: interest and slot go |
| `EventSchedule.StEventSchedule.AddQueue` | src/st_thread.cc:358-385 | in place: the loop with its rollback is the AddQueue of the model |
| `EventSchedule.StEventSchedule.DeleteQueue` | src/st_thread.cc:387-411 | in place: the loop is the DeleteQueue of the model |
| `EventSchedule.StEventSchedule.Merge` | src/st_thread.cc:616-650 | a failed Schedule is undone: caller's queue, fd set and item are as before, in the same order, and errno is never ETIME; a successful one leaves everything in the fd set |
| `EventSchedule.StEventSchedule.ScheduleBegin` | src/st_thread.cc:608-659 | Schedule of the active coroutine up to the switch: undone, and then for items on different descriptors no item added before the failing one keeps interest and every other descriptor is as before; or added and parked with its deadline |
| `EventSchedule.StEventSchedule.ScheduleEnd` | src/st_thread.cc:660-689 | after the switch: the fd set is emptied, its interest deleted, and the result says whether an event is recorded in an item, ETIME else |
| `EventSchedule.StEventSchedule.WaitOn` | src/st_sys.cc:439-480 | the item of the descriptor gets interest and owner and is scheduled alone |
| `EventSchedule.StEventSchedule.TakeEvent` | src/st_thread.cc:515-560 | the fired mask is recorded in the item of its slot; an error clears the slot, an empty slot loses the interest |
| `EventSchedule.StEventSchedule.DispatchOne` | src/st_thread.cc:515-580 | in place: one pass of the loop in Dispatch |
| `EventSchedule.StEventSchedule.Dispatch` | src/st_thread.cc:515-580 | in place: the loop is the Dispatch proved exact above |
| `EventSchedule.StEventSchedule.GetEventItem` | src/st_thread.h:160-167 | the item of a valid descriptor, or none |
| `EventSchedule.StEventQueue.TakeAll` | src/st_poll.h:226-237 | moves every item of the caller's queue in order |
| `EventSchedule.StEventQueue.TakeBack` | src/st_thread.cc:633-641 | gives the last n items back in order |
| `HookModel.CloseExact` | app/st_sys.cc:105-150 | sys_close gives back the item the hook registered and only that; the number then has no slot, mask or registration and can be reused; nothing of another descriptor changes |
| `HookModel.EveryReachableTable` | app/st_sys.cc:44-158 | in every run the event table never holds an item that went back to its pool, and every hook_item exists and watches its own descriptor |
| `HookModel.StepAccounts` | app/st_sys.cc:79-158 | no item the hook made is lost if and only if the step drops or overwrites no hook_item: sys_shutdown of a hooked descriptor, a number given anew without sys_close, and a hook_ensure_item that registers while the slot has one do |
| `HookModel.EnsureExact` | app/st_sys.cc:79-103 | hook_ensure_item registers if and only if the slot is in use, its descriptor valid and its place in the event table empty, and the kernel has nothing to forget or does not refuse; the new item then watches nothing and is owned by nobody; else nothing changes |
| `HookModel.LostForGood` | app/st_sys.cc:79-158 | an item the hook made that no slot names never goes back to its pool, whatever comes after |
| `HookModel.ShutdownLosesItem` | app/st_sys.cc:152-158 | a concrete run: opened, hooked and shut down, the item is lost for good |
| `HookModel.ShutdownRunExists` | app/st_sys.cc:44-158 | that run exists |
| `HookModel.EnsureKeeps` | app/st_sys.cc:79-103 | hook_ensure_item keeps the invariant |
| `HookModel.ReleaseKeeps` | app/st_sys.cc:105-118 | hook_release_item frees exactly the slot's item and clears the table only where that item holds it |
| `SysFiles.SysFdList.SysNewFd` | app/st_sys.cc:44-54 | in place: the operation of the model |
| `SysFiles.SysFdList.SysShutdown` | app/st_sys.cc:152-158 | in place: the slot part of the model's operation |
| `SysFiles.SysFdList.HookEnsureItem` | app/st_sys.cc:79-103 | in place on slot, item and event table: the operation of the model |
| `SysFiles.SysFdList.HookReleaseItem` | app/st_sys.cc:105-118 | in place: the operation of the model |
| `SysFiles.SysFdList.SysClose` | app/st_sys.cc:132-150 | in place: hook item, slot, cached mask, descriptor |
| `HashList.First` | stlib/st_hash_list.h:117-135 | the first key equal to the probe, with none equal before it; none when no key is equal |
| `HashList.FirstInChain` | stlib/st_hash_list.h:117-135 | searching one chain finds what searching all live keys, newest first, finds |
| `HashList.NewestFirst` | stlib/st_hash_list.h:94-115 | a key inserted is found before every older equal one, other probes are unaffected, and removing it brings the table back |
| `HashList.StHashList.constructor` | stlib/st_hash_list.h:81-85 | every bucket empty |
| `HashList.StHashList.HashSize` | stlib/st_hash_list.h:92-92 | the number of live keys |
| `HashList.StHashList.HashFind` | stlib/st_hash_list.h:117-135 | the most recently inserted live key equal to the probe, or none |
| `HashList.StHashList.HashInsert` | stlib/st_hash_list.h:94-115 | refused exactly when the key looks linked; else it is the newest live key; a live key with hash value 0 that ends its chain passes the test, and then the chain is a ring |
| `HashList.StHashList.HashRemove` | stlib/st_hash_list.h:147-172 | unlinks exactly the key HashFind would give; chains stay acyclic, in their bucket, in order |
| `HashList.StHashList.Unlink` | stlib/st_hash_list.h:157-166 | the pointer writes of the removal, at the head of a chain or inside |
| `HashList.InsertTwice` | stlib/st_hash_list.h:94-115 | on a new list: a key with hash value 0 inserted twice links to itself |
| `HashList.StHashList.BecomesRing` | stlib/st_hash_list.h:99-107 | why the chain becomes a ring |
| `RespModel.Decodes` | app/st_redisclient/resp.cc:78-202 | for every well-formed value at most five levels deep and every prefix of its bytes with anything behind: more is wanted before its last byte, then exactly the value and its length are given |
| `RespLimits.LimitsExact` | app/st_redisclient/resp.cc:78-202 | of every value the protocol can express the decoder gives the value if its sizes and nesting are within the limits, and refuses it otherwise, at any depth |
| `RespLimits.CallAnswers` | app/st_redisclient/resp.cc:234-258 | so of one call that has the whole of such a value |
| `RespLimits.BadLength` | app/st_redisclient/resp.cc:101-134 | a bulk length that is neither -1 nor within the limit is refused as soon as its line is there |
| `RespLimits.BadCount` | app/st_redisclient/resp.cc:136-173 | so is an array count outside its limit, and any array nested too deep |
| `RespLimits.NoTerminator` | app/st_redisclient/resp.cc:101-134 | a bulk string not followed by CR LF is refused |
| `RespLimits.NumberRead` | app/st_redisclient/resp.cc:81-112 | numbers are read as strtoll and atoi read them: blanks skipped, one sign, saturating at 64 bits, then cut to 32 |
| `RespLimits.EmptyNumberReadsOn` | app/st_redisclient/resp.cc:81-99 | a concrete integer line without a number, whose value is the next line |
| `RespStream.AppendExact` | app/st_redisclient/resp.cc:204-232 | bytes are taken exactly when they and a terminator fit into 2 MiB, else nothing changes |
| `RespStream.NoByteIsLost` | app/st_redisclient/resp.cc:204-258 | for every buffer and every call: the bytes afterwards are those before and the new ones but for those of the value given; a call fails exactly without room, and then takes nothing, or when the decoder refuses |
| `RespStream.CallInStream` | app/st_redisclient/resp.cc:234-258 | one call gives the next value as soon as all its bytes are there and keeps the bytes behind it, else 0 |
| `RespStream.CutsDoNotMatter` | app/st_redisclient/resp.cc:204-258 | for every split of the stream no call fails, the values come in order, and the unread bytes stay |
| `RespStream.DrainsCompletely` | app/st_redisclient/resp.cc:234-258 | once all bytes are there the calls give all values and the buffer ends empty |
| `RespStream.CommandRoundTrip` | app/st_redisclient/resp.cc:260-293 | parsing an encoded command gives the arguments back |
| `RespParser.FindLine` | app/st_redisclient/resp.cc:55-63 | the first CR LF, or none |
| `RespParser.ParseLineAt` | app/st_redisclient/resp.cc:81-99 | in the source's form: the line parser of the model |
| `RespParser.ParseBulkAt` | app/st_redisclient/resp.cc:101-134 | in the source's form: the bulk parser of the model |
| `RespParser.ParseArrayAt` | app/st_redisclient/resp.cc:136-173 | in the source's form: the array loop of the model |
| `RespParser.ParseOneAt` | app/st_redisclient/resp.cc:175-202 | in the source's form: the dispatch on the first byte |
| `RespParser.RespParser.Append` | app/st_redisclient/resp.cc:204-232 | in place: grows the buffer by doubling, or fails and changes nothing |
| `RespParser.RespParser.Parse` | app/st_redisclient/resp.cc:234-258 | in place: append, parse, shift |
| `RespParser.Encode` | app/st_redisclient/resp.cc:260-293 | writes exactly the command's bytes, or -1; it succeeds if and only if they fit, with room for each line's terminator |
| `HttpDecode.SizeExact` | app/st_wrk/http_parser.c:1934-1985 | a run of hex digits is accepted if and only if it spells less than 2^64-16; then content_length is the number, never the value that means unset |
| `HttpDecode.SizeRunExact` | app/st_wrk/http_parser.c:1934-1985 | a run of bytes is read as a chunk size if and only if the table has a digit for each and the number is below 2^64-16 |
| `HttpDecode.SizeDigits` | app/st_wrk/http_parser.c:224-233 | the bytes a size is read from are hexadecimal digits if and only if all are below 128; the others are read as so many zeros |
| `HttpDecode.SizeRoundTrip` | app/st_wrk/http_parser.c:1934-1985 | every size spelled in hexadecimal, with small or capital letters, is read as itself |
| `HttpDecode.BlanksDoNotCount` | app/st_wrk/http_parser.c:1466-1590 | the number of a Content-Length value is the decimal number of its digits, blanks left out |
| `HttpDecode.HighByteIsASize` | app/st_wrk/http_parser.c:224-233 | a concrete one: the byte 200 is a size of 0, and as the last chunk completes the message |
| `HttpDecode.ContentLength` | app/st_wrk/http_parser.c:1466-1590 | the loop over a Content-Length value, however it is cut: accepted if and only if it is digits and blanks behind a digit, spells less than 2^64-6 and is counted within the limit of the header size, a cut costing one; then the number is exact |
| `HttpBody.FeedAppend` | app/st_wrk/http_parser.c:1882-2083 | feeding two buffers is feeding their concatenation |
| `HttpDecode.CutsDoNotMatter` | app/st_wrk/http_parser.c:656-2083 | a stretch that is taken whole is taken whole under every cut into calls with bytes, with the same events |
| `HttpDecode.CutsExact` | app/st_wrk/http_parser.c:656-676 | under a cut with empty calls: the same if and only if none of them comes before the end of the message; such a one is an error |
| `HttpDecode.ChunkedDecodes` | app/st_wrk/http_parser.c:1934-2083 | for every list of chunks, with extensions or without, and every split into calls: each buffer is taken whole, the body is the payload and message_complete fires once, at the end, if and only if no call without bytes comes before the end; with one the parser fails |
| `HttpAccept.OnlyChunksComplete` | app/st_wrk/http_parser.c:1934-2083 | the converse: whatever is taken as the whole of a chunked body is chunks of the size their lines give, a last chunk and an empty line, whose CR may be missing, and the body told is their data |
| `HttpDecode.IdentityDecodes` | app/st_wrk/http_parser.c:1882-1925 | the same for a body of given length |
| `HttpDecode.UntilCloseDecodes` | app/st_wrk/http_parser.c:656-676 | a body of unknown length is the bytes of all calls up to the first without bytes, which completes it |
| `HttpExecute.HttpParser.Single` | app/st_wrk/http_parser.c:1882-2083 | in place: one state of the loop on one byte |
| `HttpExecute.HttpParser.ExecuteBytes` | app/st_wrk/http_parser.c:1882-2083 | in place: the loop with its whole-buffer steps through body data is the byte machine |
| `HttpExecute.HttpParser.Execute` | app/st_wrk/http_parser.c:636-676 | in place: the whole call, with its answers to an empty buffer and to a parser that has failed |
| `HttpRead.ReadBody` | app/st_httpclient/http_client.cc:389-412 | in place: the loop over recv, with the end of the connection as an empty call; it succeeds if and only if the calls up to some buffer tell the end of the message without an error or bytes left untaken before it, and then returns the body bytes told until then |
| `HttpRead.ChunkedIsRead` | app/st_httpclient/http_client.cc:389-412 | the caller has the data of the chunks, however the network cuts their bytes |
| `HttpRead.UntilCloseIsRead` | app/st_httpclient/http_client.cc:389-412 | and a body of unknown length once the connection is closed |
| `HttpRead.ReadAllIs` | app/st_httpclient/http_client.cc:389-424 | the same as an independent definition: the first buffer at which the message is over decides |
| `HttpRead.CutShortFails` | app/st_httpclient/http_client.cc:401-424 | when the connection closes inside a message that would have completed, the read fails, under every cut |
| `HttpRead.ChunkedCutShort` | app/st_httpclient/http_client.cc:401-424 | so for every proper prefix of a chunked body |
| `HttpRead.IdentityCutShort` | app/st_httpclient/http_client.cc:401-424 | and of a body of known length |
| `ChannelModel.CopyConserves` | stlib/tests/ucontext/channel.c:155-199 | a copy moves values through the ring: what was sent stays what was received followed by the buffer |
| `ChannelModel.DequeueAllExact` | stlib/tests/ucontext/channel.c:105-133 | dequeuing a parked task never aborts and takes out exactly its entries |
| `ChannelModel.ExecExact` | stlib/tests/ucontext/channel.c:202-220 | executing an alternative never aborts and keeps the invariant |
| `ChannelModel.ExecMoves` | stlib/tests/ucontext/channel.c:202-220 | with a partner waiting one value is sent and one received and the partner is ready with its own index; alone one value moves; no other channel changes |
| `ChannelModel.ParkExact` | stlib/tests/ucontext/channel.c:264-285 | parking a task none of whose alternatives can run keeps the invariant |
| `ChannelModel.ChanAltExact` | stlib/tests/ucontext/channel.c:224-285 | no call aborts, every call keeps the invariant |
| `ChannelModel.ChanAltDoes` | stlib/tests/ucontext/channel.c:224-285 | a call with an alternative that can run executes the picked one, returns its index and stores the value moved; with none it parks the task on all its alternatives if it may block, and else returns -1 and changes nothing |
| `ChannelModel.RunKeeps` | stlib/tests/ucontext/channel.c:71-285 | every run keeps it |
| `ChannelModel.EveryReachableWorld` | stlib/tests/ucontext/channel.c:71-285 | in every reachable state sent = received then buffer; waiting receivers mean an empty buffer and waiting senders a full one; only parked tasks are queued, so a completed alt leaves nothing behind |
| `Channels.Channel.AltCopy` | stlib/tests/ucontext/channel.c:155-199 | in place on the ring buffer: the copy of the model |
| `Channels.Channel.AltQueue` | stlib/tests/ucontext/channel.c:96-102 | in place: appends the entry |
| `Channels.Channel.AltDequeue` | stlib/tests/ucontext/channel.c:105-123 | in place: takes the entry out |
| `Channels.Tasks.AltAllDequeue` | stlib/tests/ucontext/channel.c:126-133 | in place: the loop over a task's entries |
| `Channels.Tasks.AltExec` | stlib/tests/ucontext/channel.c:202-220 | in place: the execution of the model |
| `Channels.Tasks.Resume` | stlib/tests/ucontext/channel.c:276-285 | in place: a task that another one finished returns the index and value that one left it and can call again; the invariant survives |
| `Channels.Tasks.ChanAlt` | stlib/tests/ucontext/channel.c:224-285 | in place: picks an alternative if and only if one can run, and does what the row above says |
| `DnsNames.EncodeExact` | app/st_dns/dns_proto.h:23-58 | the encoder succeeds if and only if every label has 1 to 63 bytes and the result fits, and then writes each label behind its length |
| `DnsNames.EncodersAgree` | app/st_dns/dns.cpp:6-28 | for every name the forward encoder accepts the backward encoder writes the same bytes |
| `DnsNames.DecodeExact` | app/st_dns/dns_proto.h:62-108 | decoding labels on the wire gives the dotted name and its end if and only if there are fewer than 128 and the name fits |
| `DnsNames.DecodeOnlyWire` | app/st_dns/dns_proto.h:62-108 | the decoder accepts nothing but labels on the wire |
| `DnsNames.ZoneIsLabels` | app/st_dns/dns_proto.h:110-128 | the suffix test on bytes is a test on whole labels: bench.local and bench.sthread.local and names under them |
| `DnsExchange.NameRoundTrip` | app/st_dns/dns_proto.h:23-108 | for every name of plain labels of at most 253 bytes both encoders agree and decoding gives the name back |
| `DnsExchange.QueryIs` | app/st_dns/dns.cpp:30-71 | the query sent is the header, the name, type A and class IN, whatever was left in the send buffer |
| `DnsExchange.QuestionIs` | app/st_dns/dns_proto.h:132-165 | the server reads the question the client asked |
| `DnsExchange.ReplyIsUnderstood` | app/st_dns/dns.cpp:112-146 | for every query the server answers the client's loop finds 127.0.0.1 with 60 seconds if and only if the query asks for an address in the zone, and no address else |
| `DnsExchange.EndToEnd` | app/st_dns/dns.cpp:73-146 | from end to end for every such name, with anything behind the reply in the receive buffer |
| `DnsAnswers.LookupReads` | app/st_dns/dns.cpp:112-146 | for every list of address and alias records behind the query, as many as the header counts: the lookup gives the addresses in order and the last time to live, and fails exactly when there is no address |
| `DnsAnswers.OtherTypeStops` | app/st_dns/dns.cpp:112-146 | a record of another type ends the lookup, which then succeeds with the addresses before it, even if there are none |
| `DnsAnswers.AnsweredOrDropped` | app/st_dns/dns_proto.h:132-217 | a packet is answered if and only if it has 12 to 512 bytes, counts a question, begins with a name and four bytes more, and the reply has room |
| `DnsAnswers.ReplyHeader` | app/st_dns/dns_proto.h:132-217 | a reply keeps identifier, opcode and question, sets QR, AA and RA, clears RCODE, and counts one question, its answers and nothing else |
| `DnsAnswers.AnsweredExactly` | app/st_dns/dns_proto.h:132-217 | there is an answer if and only if the question is for an address of class IN and a name in the zone |
| `DnsAnswers.QueryLimit` | app/st_dns/dns.cpp:60-71 | a name of more than 256 bytes is not asked for |
| `DnsCodec.EncodeQname` | app/st_dns/dns_proto.h:23-58 | in place: the loop leaves the encoded name at the start of the buffer, or returns -1 |
| `DnsCodec.ChName` | app/st_dns/dns.cpp:6-28 | in place: the backward loop leaves the name on the wire, the rest of the buffer is as before |
| `DnsCodec.DecodeQname` | app/st_dns/dns_proto.h:62-108 | in place: the loop leaves the name as a C string and returns its end, or -1 |
| `DnsCodec.Dns.MakeDnsQueryFormat` | app/st_dns/dns.cpp:30-71 | in place: the send buffer starts with the query; -1 for a name over 256 bytes |
| `DnsCodec.BuildReply` | app/st_dns/dns_proto.h:132-217 | in place: the reply of the model at the start of the buffer, or -1 |
| `DnsCodec.DnsLookup` | app/st_dns/dns.cpp:112-146 | in place: the answer loop with its running offset finds what the loop above, proved exact for every list of records, finds |
| `UrlModel.ScanKeeps` | app/st_wrk/http_parser.c:2350-2411 | after every character the fields found are non-empty, apart and in order |
| `UrlModel.HostKeeps` | app/st_wrk/http_parser.c:2255-2334 | the host scan finds userinfo, host and port inside the host part, in order |
| `UrlModel.SplitKeepsOrder` | app/st_wrk/http_parser.c:2255-2334 | splitting the host part keeps the fields disjoint and in order |
| `UrlModel.FieldsInOrder` | app/st_wrk/http_parser.c:2342-2444 | every field of an accepted URL of at most 65535 bytes is non-empty, inside it, disjoint from the others and in the order scheme, userinfo, host, port, path, query, fragment |
| `UrlModel.SizeLimit` | app/st_wrk/http_parser.h:359-367 | offsets and lengths have 16 bits: for n bytes this holds of every accepted URL (of any method but CONNECT) if and only if n is at most 65535; a path of 65536 slashes, with more behind it for a larger n, is a failing one |
| `UrlModel.PortValue` | app/st_wrk/http_parser.c:2431-2441 | the port is what strtoul reads: the number the digits of the field spell together with digits behind a buffer that ends with the port |
| `UrlPort.PortAtEnd` | app/st_wrk/http_parser.c:2255-2334 | an accepted URL ends with its port if and only if its bytes end in a colon and digits inside the authority |
| `UrlPort.BehindTheBuffer` | app/st_wrk/http_parser.c:2431-2441 | what lies behind the buffer decides nothing unless it ends with a port; then digits there make it another number, or over 65535 and the URL is refused |
| `UrlPort.PortIsItsDigits` | app/st_wrk/http_parser.c:2431-2441 | the port is the number its own digits spell if and only if the buffer does not end with it, or the byte behind is no digit, or all these digits are zero |
| `UrlPort.PortOfTheNextByte` | app/st_wrk/http_parser.c:2431-2441 | a concrete URL with port 8 that is given port 80 |
| `UrlCompose.SplitAfterCompose` | app/st_wrk/http_parser.c:2342-2444 | a URL of at most 65535 bytes put together from its parts, with a registered name, an address or a bracketed IPv6 literal with or without zone as host, is accepted if and only if its fragment, if any, comes behind a path or a query; then splitting gives exactly these parts and the port back, unless it ends with the port and digits lie behind |
| `UrlAccept.AcceptedIsComposed` | app/st_wrk/http_parser.c:2255-2444 | the converse: an accepted URL of at most 65535 bytes is a scheme and an authority, or neither, a path, a query and a fragment of the characters they may have, with nothing between but their delimiters, and its fields are exactly the parts that are not empty |
| `UrlAccept.ConnectTakesMore` | app/st_wrk/http_parser.c:2425-2429 | a concrete CONNECT target with more than a host and a port that is accepted |
| `UrlAccept.CharactersOfRfc` | app/st_wrk/http_parser.c:243-282 | the character table is what section 3 of RFC 3986 allows and eleven visible characters more |
| `UrlParser.HttpParserUrl.ParseHost` | app/st_wrk/http_parser.c:2255-2334 | in place: fails exactly where the host scan does not end well, else leaves the host part split |
| `UrlParser.HttpParserUrl.ScanUrl` | app/st_wrk/http_parser.c:2350-2411 | in place: the loop over the characters is the scan of the model |
| `UrlParser.HttpParserUrl.ParseUrl` | app/st_wrk/http_parser.c:2342-2444 | in place: fails exactly when the splitter refuses, else fields and port are the splitter's |

## Left out

- Register and stack switching: a switch is one atomic step.
- System calls, dlsym hooking, logging and thread-local singletons: the kernel's answers, the clock and the fired events are inputs. A change that only reduces interest is not refused by the kernel model, and an EV_DELETE of a present filter succeeds.
- `m_state_`: it is overwritten along the way and never read; flags, links and heap index are modelled.
- `EventDispatch` and the methods over it assume that the owner of every item exists when its event fires, which the code does not check; `WaitTheorems.OwnersAreAlive` proves it for tidy runs.
- SysCalls.StSysSchedule.StWaitBegin: the item must not be linked in another fd set, as the queue macros demand; `WaitTheorems.SecondWaiter` says what comes of it otherwise.
- SysCalls.StSysSchedule.WaitFdReadyBegin: the same.
- WaitModel: fd sets hold one item, as `st_wait` and `WaitFdReady` fill them; a call for a descriptor without an item changes nothing and is no step; an item goes back to its pool together with its slot.
- EventSchedule.StEventSchedule.ScheduleBegin: `Schedule` of the active coroutine, which is what both callers pass. Of another one it would park that one and delete its interest at once.
- SchedLimits.UnpendNeedsPended: a coroutine linked in the run, IO or reclaim queue is excluded; the macro would unlink it through the wrong head.
- `Yield` called with no active caller, and `StThreadSchedule::Pend` or `Sleep` of a coroutine that is linked elsewhere: the queue macros then unlink through the wrong head.
- The event mask has the bits readable, writable and error; other bits of the mask word are not modelled, nor the handlers' results beyond their sign.
- `StEventSchedule::Schedule` sets the wakeup time between merging the queues and adding them; the model sets it after, with the same result on either path.
- The retry loops of `st_read`, `st_write`, `st_recv`, `st_send`, `st_connect` and `st_accept` around `WaitFdReady`: each turn is one `WaitFdReadyBegin`.
- `CheckExpired` and `StHeapTimer`: `Startup` rewrites the key before it checks whether the timer is armed; the same heap is proved under `Wakeup`.
- `StConnectionManager`: a default `StNetAddr` leaves its address bytes unset, so key equality is not decided by the code.
- `CPP_TAILQ_CONCAT`: no caller in the scheduler, and it does not re-parent what it moves. `CPP_TAILQ_INIT` of a queue in use leaves its size and its elements' links as they were; the model starts from an empty queue.
- TailQ.Head.Remove: an element that is linked in another queue is excluded, as the macro demands.
- The schedulers' queues are sequences with a link field per coroutine, not the pointers of `TailQ`; its methods are what the macros do to such a sequence.
- ThreadSchedule.UtilPtrPool.AllocPtr: `FreePtr`, which the coroutines do not use, is not modelled.
- SysFiles.SysFdList.HookEnsureItem: the item that the pool would give is an argument.
- Reuse of an item object after it went back to its pool is a new item; timeouts and the non-blocking flag of a slot are not modelled.
- ChannelModel: values are moved whole, not byte by byte; the scheduler of libtask is the set of ready tasks, and its random choices are inputs. `chanfree` and the wrappers around `chanalt` are not modelled.
- Malformed RESP beyond lengths, counts, nesting, terminators and number lines: no theorem says what the decoder makes of it; its methods are proved for every input.
- The states of HTTP headers and of trailer fields, and callbacks that pause or fail: a header's byte count grows at each cut, so overflow depends on the cuts.
- HttpDecode.ContentLength: a value has a first byte; an empty value is read by other states and leaves the length unset.
- HttpRead.ReadBody: headers are done before it starts; bytes behind the end of the message in the same buffer go to the header states and are not taken here. The read timeout is a failed read.
- DnsCodec.DnsLookup: a loop that would read behind the receive buffer is excluded; the model says `Overrun` there. Sending, receiving and timeouts of the lookup are left out.
- DnsExchange.EndToEnd: names without a final dot; with one, the client's length counts a byte too many.
- HashList: `HashValue` and `HashCmp` are those of fields that never change. `HashForeach` and `HashGetFirst` are not modelled.
- The memcache parser (its driver loops for as long as the result is "again"), the application mains, chat, proxy, port scan, the statistics in floating point and the other libtask samples.
