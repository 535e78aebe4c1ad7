/** The calls of src/st_sys.cc and the daemon loop of src/st_sys.h on the scheduler objects. A call that
    blocks is cut in two at the switch. Each method is proved to be the step of the same name of a run:
    y is the state of the run before it. */
module SysCalls {
  import opened HeapModel
  import opened Queues
  import opened SchedModel
  import opened SchedInvariant
  import opened SchedOps
  import opened SchedLifecycle
  import opened SchedRuns
  import DaemonPoll
  import opened PollModel
  import opened EventModel
  import opened EventDispatch
  import opened Coroutines
  import opened ThreadSchedule
  import opened EventSchedule
  import WaitModel

  class StSysSchedule {
    const threads: StThreadSchedule
    const events: StEventSchedule
    var lastClock: int

    constructor (threads: StThreadSchedule, events: StEventSchedule, now: int)
      ensures this.threads == threads && this.events == events && lastClock == now
    {
      this.threads, this.events, lastClock := threads, events, now;
    }

    /** The run is in state y. */
    ghost predicate In(y: Sys<StThreadItem>)
      reads threads, threads.sleepList, threads.sleepList.list, threads.sleepList.members`heapIndex
      reads threads.pool, threads.sleepList.items`wakeupTime, threads.threads
    {
      threads.Valid() && SysInv(y) && y.s == threads.View()
    }

    /** One second when nobody sleeps, else the time left to the earliest deadline. */
    method GetTimeout(ghost y: Sys<StThreadItem>) returns (ms: int)
      requires In(y) && y.lastClock == lastClock
      ensures y.s.heap != [] ==> y.s.heap[0].item in y.s.th
      ensures ms == DaemonPoll.GetTimeout(y)
    {
      threads.Top();
      hide Inv, ParksOk;
      var thread := threads.sleepList.HeapTop();
      if thread == null {
        return 1000;
      }
      threads.Sees(thread);
      if thread.wakeupTime < lastClock {
        return 0;
      }
      return thread.wakeupTime - lastClock;
    }

    /** One turn of the daemon after the poll: dispatch, the new clock, the sleepers due, the switch. */
    method Turn(ghost y: Sys<StThreadItem>, fs: seq<Fired>, now: int)
      requires threads.Valid() && events.Valid() && y.s == threads.View() && CanTurn(y, events.View(), now)
      modifies `lastClock, events.slots, events.iostate.file, events.iostate.kernel`reg, events.items`revents
      modifies threads, threads.pool, threads.sleepList, threads.sleepList.list, threads.threads
      ensures events.Valid() && threads.Valid() && lastClock == now
      ensures TurnOf(y, old(events.View()), fs, now, threads.View())
    {
      hide *;
      TurnSteps(y, events.View(), fs, now);
      events.Dispatch(threads, fs);
      lastClock := now;
      WakeAndYield(now);
    }

    /** The sleepers due, and the daemon's switch. */
    method WakeAndYield(now: int)
      requires threads.Valid() && Quiet(threads.View()) && Inv(Wakeup(threads.View(), now))
      requires Wakeup(threads.View(), now).active == Wakeup(threads.View(), now).daemon
      modifies threads, threads.pool, threads.sleepList, threads.sleepList.list, threads.threads
      ensures threads.Valid() && threads.View() == Yield(Wakeup(old(threads.View()), now))
    {
      hide *;
      threads.Wakeup(now);
      threads.Present();
      threads.Queue();
      threads.Yield(threads.daemon);
    }

    /** st_sleep up to the switch. */
    method StSleep(ghost y: Sys<StThreadItem>, ms: int, now: int)
      requires threads.Valid() && CanStep(y, Event.Sleep(ms, now)) && y.s == threads.View()
      modifies threads, threads.pool, threads.sleepList, threads.sleepList.list, threads.threads
      ensures threads.Valid() && After(y, Event.Sleep(ms, now), threads.View(), Silent)
    {
      hide *;
      SleepReady(y, ms, now);
      Doze(y.s, now + ms);
      SleepAfter(y, ms, now, threads.View());
    }

    /** StThread::Sleep and StThreadSchedule::Sleep of the active coroutine. */
    method Doze(ghost s: Sched<StThreadItem>, deadline: int)
      requires threads.Valid() && s == threads.View() && CanWait(s)
      modifies threads, threads.pool, threads.sleepList, threads.sleepList.list, threads.threads
      ensures threads.Valid() && Dozing(s, deadline, threads.View())
    {
      hide *;
      ActiveIsOutside();
      DozeSteps(s, deadline);
      threads.SetWakeupTime(threads.activeThread, deadline);
      threads.Queue();
      threads.Sees(threads.activeThread);
      threads.Sleep(threads.activeThread);
    }

    lemma ActiveIsOutside()
      requires threads.Valid() && CanWait(threads.View())
      ensures threads.activeThread in threads.threads && threads.activeThread !in threads.sleepList.members
      ensures threads.View().active == threads.activeThread && !threads.activeThread.sleepFlag
    {
      hide Inv;
      threads.Queue();
      At(threads.View(), threads.activeThread);
      threads.NotInHeap(threads.activeThread);
      threads.Sees(threads.activeThread);
    }

    /** st_notify_wait: true with its result when it returns at once, false when it has parked. */
    method StNotifyWaitBegin(ghost y: Sys<StThreadItem>, ms: int, now: int) returns (done: bool, rc: int)
      requires threads.Valid() && CanStep(y, Event.NotifyWait(ms, now)) && y.s == threads.View()
      modifies threads, threads.pool, threads.sleepList, threads.sleepList.list, threads.threads
      ensures threads.Valid() && (done ==> rc == 0 || rc == -1)
      ensures After(y, Event.NotifyWait(ms, now), threads.View(), if done then NotifyWaitResult(rc == 0) else Silent)
    {
      hide *;
      NotifyWaitSteps(y, ms, now);
      threads.Present();
      threads.Queue();
      threads.Sees(threads.activeThread);
      var on := TakeNotified();
      if on {
        return true, 0;
      }
      if ms == 0 {
        return true, -1;
      }
      var timeout := Normalize(ms);
      Doze(y.s, now + timeout);
      NotifyWaitAfter(y, ms, now, threads.View());
      return false, 0;
    }

    /** TakeNotified of the active coroutine. */
    method TakeNotified() returns (on: bool)
      requires threads.Valid()
      modifies threads.threads`notified
      ensures threads.Valid() && threads.activeThread in threads.threads
      ensures on == old(threads.activeThread.Record().notified)
      ensures threads.View() == SetRec(old(threads.View()), threads.activeThread,
                                       old(threads.activeThread.Record()).(notified := false))
    {
      hide StThreadSchedule.View, StThreadSchedule.HeapOk;
      var thread := threads.activeThread;
      on := thread.notified;
      thread.notified := false;
      assert thread.Record() == old(thread.Record()).(notified := false);
      threads.RecordChanged(thread);
    }

    /** st_wait up to the switch: -2 without an item; the mask when a notification is there already; -3
        when the item cannot be added; else the coroutine has parked with its item added. `ready` is what a
        non-blocking look at the descriptor finds, `saved` errno after a failed Add. */
    method StWaitBegin(ghost y: Sys<StThreadItem>, own: StEventQueue, fd: int, wantRead: bool, ms: int, now: int,
                       ready: bool, refuse: set<StEventItem>, saved: int) returns (r: Waited)
      requires threads.Valid() && events.Valid() && y.s == threads.View()
      requires CanStep(y, Event.Wait(ms, now, true, ready)) && CanStep(y, Event.Wait(ms, now, false, ready))
      requires own.Valid() && own.items == []
      requires 0 <= fd < events.slots.Length && events.slots[fd] != null ==> events.slots[fd].queue == null
      modifies events.slots, events.iostate.file, events.iostate.kernel`reg, own
      modifies events.Holder(fd)`queue, events.Holder(fd)`events, events.Holder(fd)`owner
      modifies threads, threads.pool, threads.sleepList, threads.sleepList.list, threads.threads
      ensures threads.Valid() && events.Valid() && own.Valid()
      ensures r == NoItem <==> !(0 <= fd < events.slots.Length && old(events.slots[fd]) != null)
      ensures r == NoItem || r.Now? ==> events.View() == old(events.View()) && own.items == []
      ensures r.NotAdded? || r == Parked ==>
                WaitsOn(old(events.View()), old(events.slots[fd]), old(threads.activeThread), wantRead, refuse,
                        events.View(), own.items, r == Parked)
      ensures r == Parked ==>
                ParksOn(events.View(), own.items, old(events.slots[fd]), fd, old(threads.activeThread), wantRead)
      ensures WaitLeads(y, ms, now, ready, r, threads.View())
    {
      hide *;
      var item := events.GetEventItem(fd);
      if item == null {
        r := NoItem;
        LeadsNowhere(y, ms, now, ready, threads.View());
        return;
      }
      threads.Present();
      threads.Queue();
      threads.Sees(threads.activeThread);
      WaitSteps(y, ms, now, ready);
      var on := TakeNotified();
      if on {
        return Now(ready, true);
      }
      var mask := WaitModel.Direction(item.events, wantRead);
      var timeout := Normalize(ms);
      events.Has(item);
      events.Fixed();
      events.Sees(fd, item);
      ghost var v, t := events.View(), threads.activeThread;
      var ok, errno := events.WaitOn(threads, own, item, mask, now + timeout, refuse, saved);
      WaitsAre(v, item, fd, t, wantRead, refuse, events.View(), own.items, ok);
      WaitAfter(y, ms, now, ok, ready, threads.View());
      return if ok then Parked else NotAdded(errno);
    }

    /** st_wait after the switch: -1 when neither an event of the item nor a notification is recorded. */
    method StWaitEnd(ghost y: Sys<StThreadItem>, own: StEventQueue, refuse: set<StEventItem>)
      returns (fd: bool, notified: bool)
      requires threads.Valid() && events.Valid() && own.Valid() && Exist(events.View(), own.items)
      requires CanStep(y, Event.Resume(true)) && CanStep(y, Event.Resume(false)) && y.s == threads.View()
      requires y.s.active in y.park && y.park[y.s.active] == AtWait
      modifies events.slots, events.iostate.file, events.iostate.kernel`reg, own, own.items`queue
      modifies threads.threads`notified
      ensures threads.Valid() && events.Valid() && own.Valid() && own.items == []
      ensures After(y, Event.Resume(fd), threads.View(), WaitResult(fd, notified))
      ensures events.View() == EventModel.DeleteQueue(old(events.View()), old(own.items), refuse).0
      ensures fd <==> exists k :: 0 <= k < |old(own.items)| && old(own.items)[k].revents != NONE
    {
      hide *;
      var errno;
      fd, errno := events.ScheduleEnd(own, refuse);
      WaitResumeSteps(y, fd);
      threads.Present();
      threads.Queue();
      threads.Sees(threads.activeThread);
      notified := TakeNotified();
    }

    /** WaitFdReady up to the switch: -1 past the timeout, -2 without an item, else as st_wait. */
    method WaitFdReadyBegin(ghost y: Sys<StThreadItem>, own: StEventQueue, fd: int, wantRead: bool, start: int,
                            timeout: int, now: int, refuse: set<StEventItem>, saved: int) returns (r: Waited)
      requires threads.Valid() && events.Valid() && y.s == threads.View() && timeout >= 0
      requires CanStep(y, Event.Io(timeout, now, true)) && CanStep(y, Event.Io(timeout, now, false))
      requires own.Valid() && own.items == []
      requires 0 <= fd < events.slots.Length && events.slots[fd] != null ==> events.slots[fd].queue == null
      modifies events.slots, events.iostate.file, events.iostate.kernel`reg, own
      modifies events.Holder(fd)`queue, events.Holder(fd)`events, events.Holder(fd)`owner
      modifies threads, threads.pool, threads.sleepList, threads.sleepList.list, threads.threads
      ensures threads.Valid() && events.Valid() && own.Valid()
      ensures r == Expired <==> DaemonPoll.ToInt32(now - start) > timeout
      ensures r == Expired || r == NoItem ==>
                threads.View() == y.s && own.items == [] && events.View() == old(events.View())
      ensures r == NoItem <==> r != Expired && !(0 <= fd < events.slots.Length && old(events.slots[fd]) != null)
      ensures r.NotAdded? ==> After(y, Event.Io(timeout, now, false), threads.View(), Silent)
      ensures r == Parked ==> After(y, Event.Io(timeout, now, true), threads.View(), Silent)
      ensures !r.Now?
      ensures r.NotAdded? || r == Parked ==>
                WaitsOn(old(events.View()), old(events.slots[fd]), old(threads.activeThread), wantRead, refuse,
                        events.View(), own.items, r == Parked)
      ensures r == Parked ==>
                ParksOn(events.View(), own.items, old(events.slots[fd]), fd, old(threads.activeThread), wantRead)
    {
      hide *;
      if DaemonPoll.ToInt32(now - start) > timeout {
        return Expired;
      }
      var item := events.GetEventItem(fd);
      if item == null {
        return NoItem;
      }
      IoSteps(y, timeout, now);
      var mask := WaitModel.Direction(item.events, wantRead);
      events.Has(item);
      events.Fixed();
      events.Sees(fd, item);
      ghost var v, t := events.View(), threads.activeThread;
      var ok, errno := events.WaitOn(threads, own, item, mask, timeout + now, refuse, saved);
      WaitsAre(v, item, fd, t, wantRead, refuse, events.View(), own.items, ok);
      IoAfter(y, timeout, now, ok, threads.View());
      return if ok then Parked else NotAdded(errno);
    }

    /** st_notify_wait after the switch. */
    method StNotifyWaitEnd(ghost y: Sys<StThreadItem>) returns (rc: int)
      requires threads.Valid() && CanStep(y, Event.Resume(false)) && y.s == threads.View()
      requires y.s.active in y.park && y.park[y.s.active] == AtNotifyWait
      modifies threads.threads`notified
      ensures threads.Valid() && After(y, Event.Resume(false), threads.View(), NotifyWaitResult(rc == 0))
    {
      hide *;
      ResumeSteps(y);
      threads.Present();
      threads.Queue();
      threads.Sees(threads.activeThread);
      var on := TakeNotified();
      rc := if on then 0 else -1;
    }
  }

  /** How st_wait comes back from its first half. */
  datatype Waited = Expired | NoItem | Now(fd: bool, notified: bool) | NotAdded(errno: int) | Parked

  /** Schedule with the item alone: it gets its interest and its owner and is added, which makes v' of the
      table; the fd set then has it, or is empty when it could not be added. */
  ghost predicate WaitsOn(v: Events<StEventItem, StThreadItem>, item: StEventItem?, t: StThreadItem, read: bool,
                          refuse: set<StEventItem>, v': Events<StEventItem, StThreadItem>, own: seq<StEventItem>,
                          ok: bool)
  {
    && item != null && var i: StEventItem := item;
       && i in v.items && own == (if ok then [i] else [])
       && AddedAlone(Watching(v, i, WaitModel.Direction(v.items[i].events, read), t), i, refuse, v', ok)
  }

  /** The fd set holds the item that was in the slot, and the kernel watches fd for t in the direction asked. */
  ghost predicate ParksOn(v: Events<StEventItem, StThreadItem>, own: seq<StEventItem>, item: StEventItem?, fd: int,
                          t: StThreadItem, read: bool)
  {
    item != null && fd >= 0 && own == [item] && WaitModel.Watches(v, fd, item, t, read)
  }

  lemma WaitsAre(v: Events<StEventItem, StThreadItem>, i: StEventItem, fd: int, t: StThreadItem, read: bool,
                 refuse: set<StEventItem>, v': Events<StEventItem, StThreadItem>, own: seq<StEventItem>, ok: bool)
    requires i in v.items && own == (if ok then [i] else []) && TableInv(v) && fd in v.table && v.table[fd] == i
    requires AddedAlone(Watching(v, i, WaitModel.Direction(v.items[i].events, read), t), i, refuse, v', ok)
    ensures WaitsOn(v, i, t, read, refuse, v', own, ok) && (ok ==> ParksOn(v', own, i, fd, t, read))
  {
    WaitModel.AddedWatches(v, i, t, read, refuse);
  }

  /** The result r of the first half of st_wait, and the scheduler s' then, are those of the step. */
  ghost predicate WaitLeads(y: Sys<StThreadItem>, ms: int, now: int, ready: bool, r: Waited,
        s': Sched<StThreadItem>)
  {
    match r
    case Expired => false
    case NoItem => s' == y.s
    case Now(fd, on) => After(y, Event.Wait(ms, now, true, ready), s', WaitResult(fd, on))
    case NotAdded(_) => After(y, Event.Wait(ms, now, false, ready), s', AddFailed)
    case Parked => After(y, Event.Wait(ms, now, true, ready), s', Silent)
  }

  lemma LeadsNowhere(y: Sys<StThreadItem>, ms: int, now: int, ready: bool, s': Sched<StThreadItem>)
    ensures s' == y.s ==> WaitLeads(y, ms, now, ready, NoItem, s')
  {
  }

  lemma WaitSteps(y: Sys<StThreadItem>, ms: int, now: int, ready: bool)
    requires CanStep(y, Event.Wait(ms, now, true, ready))
    ensures CanWait(y.s) && y.s.active in y.s.th
    ensures var r := y.s.th[y.s.active]; var s' := SetRec(y.s, y.s.active, r.(notified := false));
            && (r.notified ==> WaitLeads(y, ms, now, ready, Now(ready, true), s'))
            && (!r.notified ==> s' == y.s)
  {
    hide Inv, ParksOk, WaitForIo, Yield;
    assert y.s.th[y.s.active := y.s.th[y.s.active]] == y.s.th;
  }

  lemma WaitResumeSteps(y: Sys<StThreadItem>, fd: bool)
    requires CanStep(y, Event.Resume(fd)) && y.s.active in y.park && y.park[y.s.active] == AtWait
    ensures y.s.active in y.s.th
    ensures var r := y.s.th[y.s.active];
            After(y, Event.Resume(fd), SetRec(y.s, y.s.active, r.(notified := false)), WaitResult(fd, r.notified))
  {
    hide Inv, ParksOk;
  }

  lemma IoSteps(y: Sys<StThreadItem>, ms: int, now: int)
    requires CanStep(y, Event.Io(ms, now, true))
    ensures CanWait(y.s)
  {
    hide Inv, ParksOk;
  }

  lemma IoAfter(y: Sys<StThreadItem>, ms: int, now: int, added: bool, s': Sched<StThreadItem>)
    requires CanStep(y, Event.Io(ms, now, added)) && ms >= 0
    requires EventSchedule.Waiting(y.s, s', ms + now, added)
    ensures After(y, Event.Io(ms, now, added), s', Silent)
  {
    hide Inv, ParksOk, WaitForIo, Yield;
  }

  lemma WaitAfter(y: Sys<StThreadItem>, ms: int, now: int, added: bool, ready: bool, s': Sched<StThreadItem>)
    requires CanStep(y, Event.Wait(ms, now, added, ready))
    requires y.s.active in y.s.th && !y.s.th[y.s.active].notified
    requires EventSchedule.Waiting(y.s, s', now + Normalize(ms), added)
    ensures added ==> WaitLeads(y, ms, now, ready, Parked, s')
    ensures !added ==> forall errno :: WaitLeads(y, ms, now, ready, NotAdded(errno), s')
  {
    hide Inv, ParksOk, WaitForIo, Yield;
  }

  /** The step e is possible in y. */
  ghost predicate CanStep(y: Sys<StThreadItem>, e: Event<StThreadItem>)
  {
    SysInv(y) && Enabled(y, e)
  }

  /** s' and o are the scheduler and the result after step e of the run. */
  ghost predicate After(y: Sys<StThreadItem>, e: Event<StThreadItem>, s': Sched<StThreadItem>, o: Outcome)
  {
    CanStep(y, e) && s' == Step(y, e).0.s && o == Step(y, e).1
  }

  ghost predicate Dozing(s: Sched<StThreadItem>, deadline: int, s': Sched<StThreadItem>)
  {
    s.active in s.th && Inv(FallAsleep(s, deadline)) && s' == Yield(FallAsleep(s, deadline))
  }

  /** What Sleep needs once the wakeup time of the active coroutine is set. */
  lemma DozeSteps(s: Sched<StThreadItem>, deadline: int)
    requires CanWait(s)
    ensures s.active in s.th
    ensures var s1 := SetWakeup(s, s.active, deadline);
            && Quiet(s1) && Loose(s1, s1.active) && |s1.heap| < s1.cap && s1.active == s.active
            && Dozing(s, deadline, SchedLifecycle.Sleep(s1, s.active))
  {
    hide Inv;
    SetWakeupKeeps(s, deadline);
    FallAsleepExact(s, deadline);
  }

  lemma SleepReady(y: Sys<StThreadItem>, ms: int, now: int)
    requires CanStep(y, Event.Sleep(ms, now))
    ensures CanWait(y.s)
  {
    hide Inv, ParksOk;
  }

  lemma SleepAfter(y: Sys<StThreadItem>, ms: int, now: int, s': Sched<StThreadItem>)
    requires CanStep(y, Event.Sleep(ms, now)) && Dozing(y.s, now + ms, s')
    ensures After(y, Event.Sleep(ms, now), s', Silent)
  {
    hide Inv, ParksOk;
  }

  lemma NotifyWaitSteps(y: Sys<StThreadItem>, ms: int, now: int)
    requires CanStep(y, Event.NotifyWait(ms, now))
    ensures CanWait(y.s) && y.s.active in y.s.th
    ensures var r := y.s.th[y.s.active]; var e := Event.NotifyWait(ms, now);
            && (r.notified ==> After(y, e, SetRec(y.s, y.s.active, r.(notified := false)), NotifyWaitResult(true)))
            && (!r.notified ==> SetRec(y.s, y.s.active, r.(notified := false)) == y.s)
            && (!r.notified && ms == 0 ==> After(y, e, y.s, NotifyWaitResult(false)))
  {
    hide Inv, ParksOk, FallAsleep, Yield;
    assert y.s.th[y.s.active := y.s.th[y.s.active]] == y.s.th;
  }

  lemma NotifyWaitAfter(y: Sys<StThreadItem>, ms: int, now: int, s': Sched<StThreadItem>)
    requires CanStep(y, Event.NotifyWait(ms, now)) && ms != 0
    requires y.s.active in y.s.th && !y.s.th[y.s.active].notified && Dozing(y.s, now + Normalize(ms), s')
    ensures After(y, Event.NotifyWait(ms, now), s', Silent)
  {
    hide Inv, ParksOk, FallAsleep, Yield;
  }

  lemma ResumeSteps(y: Sys<StThreadItem>)
    requires CanStep(y, Event.Resume(false)) && y.s.active in y.park && y.park[y.s.active] == AtNotifyWait
    ensures y.s.active in y.s.th
    ensures var r := y.s.th[y.s.active];
            After(y, Event.Resume(false), SetRec(y.s, y.s.active, r.(notified := false)), NotifyWaitResult(r.notified))
  {
    hide Inv, ParksOk;
  }

  ghost predicate CanTurn(y: Sys<StThreadItem>, v: Events<StEventItem, StThreadItem>, now: int)
  {
    SysInv(y) && y.s.active == y.s.daemon && now >= y.clock && Dispatchable(v, y.s)
  }

  lemma TurnDispatch(y: Sys<StThreadItem>, v: Events<StEventItem, StThreadItem>, fs: seq<Fired>, now: int)
    requires CanTurn(y, v, now)
    ensures Dispatchable(v, y.s) && TableInv(v) && SysInv(y)
    ensures var s1 := EventDispatch.Dispatch(v, y.s, fs).1;
            && Enabled(y, Event.Turn(AllReported(v, fs), now)) && s1 == WakeOwners(y.s, AllReported(v, fs))
            && Quiet(s1) && s1.active == s1.daemon
  {
    hide Inv, ParksOk, EventDispatch.Dispatch, AllReported, WakeOwners, TableInv, OwnersLive;
    DispatchIsWakeOwners(v, y.s, fs);
    var woken := DispatchWakesOnce(v, y.s, fs);
  }

  lemma TurnWakeup(s: Sched<StThreadItem>, now: int)
    requires Quiet(s) && s.active == s.daemon
    ensures Inv(Wakeup(s, now)) && Wakeup(s, now).active == Wakeup(s, now).daemon
  {
    var due := WakeupExact(s, now);
  }

  lemma TurnStep(y: Sys<StThreadItem>, owners: seq<StThreadItem>, now: int)
    requires SysInv(y) && Enabled(y, Event.Turn(owners, now))
    ensures Quiet(WakeOwners(y.s, owners)) && Inv(Wakeup(WakeOwners(y.s, owners), now))
    ensures Step(y, Event.Turn(owners, now)).0.s == Yield(Wakeup(WakeOwners(y.s, owners), now))
    ensures Step(y, Event.Turn(owners, now)).0.lastClock == now
  {
    hide Inv, ParksOk;
    TurnReady(y.s, owners, now);
  }

  lemma TurnSteps(y: Sys<StThreadItem>, v: Events<StEventItem, StThreadItem>, fs: seq<Fired>, now: int)
    requires CanTurn(y, v, now)
    ensures Dispatchable(v, y.s)
    ensures var s1 := EventDispatch.Dispatch(v, y.s, fs).1;
            && Quiet(s1) && Inv(Wakeup(s1, now)) && Wakeup(s1, now).active == Wakeup(s1, now).daemon
            && TurnOf(y, v, fs, now, Yield(Wakeup(s1, now)))
  {
    hide Inv, SysInv, Enabled, Step, Quiet, Dispatchable, TableInv, WakeOwners, AllReported, EventDispatch.Dispatch,
      Wakeup, CanTurn, Yield;
    TurnDispatch(y, v, fs, now);
    TurnWakeup(EventDispatch.Dispatch(v, y.s, fs).1, now);
    TurnStep(y, AllReported(v, fs), now);
  }

  /** s' is the scheduler after the turn of the run in which the fired events were dispatched. */
  ghost predicate TurnOf(y: Sys<StThreadItem>, v: Events<StEventItem, StThreadItem>, fs: seq<Fired>, now: int,
                         s': Sched<StThreadItem>)
  {
    && SysInv(y) && TableInv(v)
    && var e := Event.Turn(AllReported(v, fs), now);
       Enabled(y, e) && s' == Step(y, e).0.s && Step(y, e).0.lastClock == now
  }
}
