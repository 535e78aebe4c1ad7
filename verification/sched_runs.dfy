/** Whole runs of the scheduler: the calls of src/st_sys.cc cut at the switch in Yield, the daemon
    loop of src/st_sys.h, and what holds in every state a run can reach. */
module SchedRuns {
  import opened HeapModel
  import opened Queues
  import opened SchedModel
  import opened SchedInvariant
  import opened SchedOps
  import opened SchedLifecycle

  /** Where a coroutine continues when it is switched to. */
  datatype Park =
    | Running        // the active coroutine, in its own code
    | Fresh          // its callback has not started
    | AtSleep        // in st_sleep
    | AtNotifyWait   // in st_notify_wait
    | AtWait         // in st_wait
    | AtIo           // in WaitFdReady, under st_read and the like
    | AtPend         // in Pend
    | AtRecycled     // at the end of Recycle
    | DaemonLoop     // the daemon, between two turns

  /** The scheduler, where everyone is parked, m_last_clock_ and the latest reading of the clock. */
  datatype Sys<T(==)> = Sys(s: Sched<T>, park: map<T, Park>, lastClock: int, clock: int)

  /** One atomic piece of a run. Clock readings, the kernel's answers and the coroutines the kernel's
      events belong to are the environment's choice. */
  datatype Event<T> =
    | Sleep(ms: int, now: int)
    | NotifyWait(ms: int, now: int)
    | Wait(ms: int, now: int, added: bool, fdReady: bool)
    | Io(ms: int, now: int, added: bool)
    | Resume(events: bool)
    | Notify(target: T)
    | Pend
    | Unpend(target: T)
    | Create(newcomer: T, runable: bool)
    | Start(target: T)
    | AddSub(parent: T, child: T)
    | MakeSub(child: T)
    | Finish
    | Turn(owners: seq<T>, now: int)

  /** What the call that ends in this step returns to its caller. */
  datatype Outcome =
    | Silent                              // nothing to report about notifications
    | NotifyWaitResult(notified: bool)    // st_notify_wait: 0, or -1 with ETIME
    | WaitResult(fd: bool, notified: bool) // st_wait: the mask, or -1 with ETIME when empty
    | AddFailed                           // st_wait: -3

  // ---------- steps ----------

  /** A negative timeout means 0x7fffffff. */
  function Normalize(ms: int): int {
    if ms < 0 then 0x7fffffff else ms
  }

  /** IOWaitToRunable for the owner of each fired event that is still an IO waiter. */
  function WakeOwners<T(==)>(s: Sched<T>, owners: seq<T>): Sched<T>
    requires Quiet(s) && forall t :: t in owners ==> t in s.th
    decreases |owners|
  {
    if owners == [] then s
    else
      WakeOwnerKeeps(s, owners[0]);
      WakeOwners(WakeOwner(s, owners[0]), owners[1..])
  }

  function WakeOwner<T(==)>(s: Sched<T>, t: T): Sched<T>
    requires t in s.th && (s.th[t].ioFlag ==> s.th[t].link == InIo)
  {
    if s.th[t].ioFlag then IOWaitToRunable(s, t) else s
  }

  /** The record of a coroutine that has just been made runnable. */
  function Runnable<T>(r: Rec<T>): Rec<T> {
    r.(ioFlag := false, sleepFlag := false, runFlag := true, link := InRun)
  }

  /** IOWaitToRunable of an IO waiter moves exactly it. */
  lemma IOWaitToRunableExact<T>(s: Sched<T>, t: T)
    requires Quiet(s) && t in s.th && s.th[t].link == InIo
    ensures Quiet(IOWaitToRunable(s, t)) && TopMoved(s, IOWaitToRunable(s, t), t)
  {
    assert Placed(s, t);
    var r := s.th[t];
    RemoveIOWaitKeeps(s, t);
    var h := RemoveIOWaitEffect(s, t);
    InsertRunableKeeps(RemoveIOWait(s, t), t);
    SetTwice(s.th, t, r.(ioFlag := false, sleepFlag := false, link := Unlinked), Runnable(r));
  }

  lemma WakeOwnerKeeps<T>(s: Sched<T>, t: T)
    requires Quiet(s) && t in s.th
    ensures s.th[t].ioFlag <==> s.th[t].link == InIo
    ensures s.th[t].ioFlag <==> t in s.io
    ensures Quiet(WakeOwner(s, t)) && NoDup(s.io)
    ensures s.th[t].ioFlag ==> TopMoved(s, WakeOwner(s, t), t)
  {
    assert Placed(s, t);
    if s.th[t].ioFlag {
      IOWaitToRunableExact(s, t);
    }
  }

  /** Each owner that was an IO waiter is queued once, in the order of its first event. */
  lemma {:induction false} WakeOwnersExact<T>(s: Sched<T>, owners: seq<T>) returns (woken: seq<T>)
    requires Quiet(s) && forall t :: t in owners ==> t in s.th
    ensures Quiet(WakeOwners(s, owners))
    ensures NoDup(woken) && MovedToRun(s, WakeOwners(s, owners), woken)
    ensures forall t :: t in woken <==> t in owners && t in s.io
    decreases |owners|
  {
    if owners == [] {
      woken := [];
      assert s.run + [] == s.run;
    } else {
      var t := owners[0];
      assert owners == [t] + owners[1..];
      WakeOwnerKeeps(s, t);
      var s1 := WakeOwner(s, t);
      var rest := WakeOwnersExact(s1, owners[1..]);
      if s.th[t].ioFlag {
        woken := [t] + rest;
        WakeMore(s, s1, WakeOwners(s, owners), owners, rest);
      } else {
        woken := rest;
      }
    }
  }

  lemma WakeMore<T>(s: Sched<T>, s1: Sched<T>, s': Sched<T>, owners: seq<T>, rest: seq<T>)
    requires owners != [] && NoDup(s.io) && TopMoved(s, s1, owners[0]) && owners[0] in s.io
    requires NoDup(rest) && MovedToRun(s1, s', rest)
    requires forall t :: t in rest <==> t in owners[1..] && t in s1.io
    ensures NoDup([owners[0]] + rest) && MovedToRun(s, s', [owners[0]] + rest)
    ensures forall t :: t in [owners[0]] + rest <==> t in owners && t in s.io
  {
    var t := owners[0];
    assert owners == [t] + owners[1..];
    DropKeepsTheRest(s.io, t);
    MovedAfterTop(s, s1, s', t, rest);
  }

  // ---------- what every step keeps ----------

  /** A coroutine parked at p is where that call leaves it: in the heap, the IO queue or the pend
      queue, or already queued to run. Nobody is anywhere else, so nobody is lost. */
  ghost predicate ParkOk<T>(s: Sched<T>, t: T, p: Park)
    requires t in s.th
  {
    var r := s.th[t];
    && (t in s.idle || r.link == InReclaim <==> p == AtRecycled)
    && (t == s.daemon <==> p == DaemonLoop)
    && (p == Running ==> t == s.active)
    && (t != s.active ==>
         && (p == Fresh ==> !r.sleepFlag && (r.link == Unlinked || r.link == InRun))
         && (p == AtSleep || p == AtNotifyWait ==> r.link == InRun || (r.link == Unlinked && r.sleepFlag))
         && (p == AtWait || p == AtIo ==> r.link == InRun || r.link == InIo)
         && (p == AtPend ==> r.link == InRun || r.link == InPend)
         && (p == AtNotifyWait || p == AtWait ==> r.sleepFlag ==> !r.notified))
  }

  ghost predicate ParksOk<T>(y: Sys<T>)
  {
    && (forall t :: t in y.s.th ==> t in y.park)
    && (forall t {:trigger ParkOk(y.s, t, y.park[t])} :: t in y.s.th ==> ParkOk(y.s, t, y.park[t]))
  }

  ghost predicate SysInv<T>(y: Sys<T>)
  {
    Quiet(y.s) && ParksOk(y) && y.lastClock <= y.clock && |y.s.reclaim| <= 1
  }

  /** The active coroutine is in its own code. */
  ghost predicate InClient<T>(y: Sys<T>)
  {
    && y.s.active in y.park && y.park[y.s.active] == Running && y.s.active != y.s.daemon
  }

  /** Created and neither idle nor waiting to be deleted. */
  ghost predicate InUse<T>(s: Sched<T>, t: T)
  {
    t in s.th && t !in s.idle && s.th[t].link != InReclaim
  }

  /** What a step needs: the clock never steps back, the sleep heap has room, and a parent is pended
      when its last child ends. */
  ghost predicate Enabled<T>(y: Sys<T>, e: Event<T>)
  {
    match e
    case Sleep(_, now) => InClient(y) && now >= y.clock && |y.s.heap| < y.s.cap
    case NotifyWait(_, now) => InClient(y) && now >= y.clock && |y.s.heap| < y.s.cap
    case Wait(_, now, _, _) => InClient(y) && now >= y.clock && |y.s.heap| < y.s.cap
    case Io(_, now, _) => InClient(y) && now >= y.clock && |y.s.heap| < y.s.cap
    case Resume(_) => y.s.active in y.park && y.park[y.s.active] != Running && y.s.active != y.s.daemon
    case Notify(t) => InClient(y) && t in y.s.th
    case Pend => InClient(y)
    case Unpend(t) => InClient(y) && t in y.s.th && y.s.th[t].link == InPend
    case Create(t, _) => InClient(y) && t !in y.s.th
    case Start(t) => InClient(y) && Loose(y.s, t) && t in y.park && y.park[t] == Fresh
    case AddSub(p, c) => InClient(y) && InUse(y.s, p) && InUse(y.s, c)
    case MakeSub(c) => InClient(y) && InUse(y.s, c)
    case Finish => InClient(y) && Recyclable(y.s)
                   && (y.s.th[y.s.active].kind == SubThread ==> ParentReady(y.s, y.s.active))
    case Turn(owners, now) => y.s.active == y.s.daemon && now >= y.clock && forall t :: t in owners ==> t in y.s.th
  }

  /** The active coroutine, already put where s2 says, switches away and will continue at p. */
  function Switch<T(==)>(y: Sys<T>, s2: Sched<T>, p: Park, now: int): Sys<T>
    requires Inv(s2)
  {
    Sys(Yield(s2), y.park[s2.active := p], y.lastClock, now)
  }

  /** s2 differs from y's scheduler only in the place of the active coroutine, which fits p. */
  ghost predicate Blocks<T>(y: Sys<T>, s2: Sched<T>, p: Park)
  {
    var a := y.s.active;
    && Inv(s2) && s2.active == a && s2.daemon == y.s.daemon && s2.run == y.s.run
    && s2.th.Keys == y.s.th.Keys
    && (forall t :: t in y.s.th && t != a ==>
         && s2.th[t].link == y.s.th[t].link && s2.th[t].sleepFlag == y.s.th[t].sleepFlag
         && s2.th[t].notified == y.s.th[t].notified && (t in s2.idle <==> t in y.s.idle))
    && (a in s2.idle || s2.th[a].link == InReclaim <==> p == AtRecycled)
    && (a == s2.daemon <==> p == DaemonLoop)
    && p != Running && p != Fresh
    && (p == AtSleep || p == AtNotifyWait ==> s2.th[a].sleepFlag && s2.th[a].link == Unlinked)
    && (p == AtWait || p == AtIo ==> s2.th[a].link == InIo)
    && (p == AtPend ==> s2.th[a].link == InPend)
    && (p == AtNotifyWait || p == AtWait ==> !s2.th[a].notified)
  }

  lemma ParksAfterSwitch<T>(y: Sys<T>, s2: Sched<T>, s': Sched<T>, p: Park, park: map<T, Park>)
    requires Quiet(y.s) && ParksOk(y) && Blocks(y, s2, p) && Switched(s2, s') && Inv(s')
    requires y.park[y.s.active] == Running || y.s.active == y.s.daemon
    requires park == y.park[y.s.active := p]
    ensures forall t {:trigger ParkOk(s', t, park[t])} :: t in s'.th ==> t in park && ParkOk(s', t, park[t])
  {
    hide Inv;
    At(s2, y.s.active);
    forall t | t in s'.th
      ensures t in park && ParkOk(s', t, park[t])
    {
      assert t in s2.th;
      assert ParkOk(y.s, t, y.park[t]);
      At(s2, t);
    }
  }

  lemma SwitchKeeps<T>(y: Sys<T>, s2: Sched<T>, p: Park, now: int)
    requires SysInv(y) && Blocks(y, s2, p) && now >= y.clock
    requires y.park[y.s.active] == Running || y.s.active == y.s.daemon
    ensures SysInv(Switch(y, s2, p, now))
    ensures Switched(s2, Switch(y, s2, p, now).s)
  {
    YieldExact(s2);
    ParksAfterSwitch(y, s2, Yield(s2), p, y.park[y.s.active := p]);
  }

  // ---------- the steps ----------

  /** StThread::Sleep and StThreadSchedule::Sleep of the active coroutine, up to the switch. */
  function FallAsleep<T(==)>(s: Sched<T>, deadline: int): Sched<T>
    requires s.active in s.th
  {
    InsertSleep(SetWakeup(s, s.active, deadline), s.active)
  }

  /** The success path of StEventSchedule::Schedule for the active coroutine, up to the switch. */
  function WaitForIo<T(==)>(s: Sched<T>, deadline: int): Sched<T>
    requires s.active in s.th && s.th[s.active].link == Unlinked
  {
    InsertIOWait(SetWakeup(s, s.active, deadline), s.active)
  }

  lemma SetWakeupKeeps<T>(s: Sched<T>, deadline: int)
    requires Quiet(s)
    ensures Quiet(SetWakeup(s, s.active, deadline))
  {
    SetRecKeeps(s, s.active, s.th[s.active].(wakeup := deadline));
  }

  lemma FallAsleepExact<T>(s: Sched<T>, deadline: int)
    requires Quiet(s) && s.active != s.daemon && |s.heap| < s.cap
    ensures Inv(FallAsleep(s, deadline))
    ensures var s2 := FallAsleep(s, deadline); var a := s.active;
            && s2 == s.(heap := s2.heap, th := s.th[a := s.th[a].(wakeup := deadline, sleepFlag := true)])
            && (forall n :: n in s2.heap <==> n in s.heap || n == Node(a, deadline))
  {
    var a := s.active;
    SetWakeupKeeps(s, deadline);
    var s1 := SetWakeup(s, a, deadline);
    assert Placed(s1, a);
    InsertSleepKeeps(s1, a);
    var h := InsertSleepEffect(s1, a);
    SetTwice(s.th, a, s.th[a].(wakeup := deadline), s.th[a].(wakeup := deadline, sleepFlag := true));
  }

  lemma WaitForIoExact<T>(s: Sched<T>, deadline: int)
    requires Quiet(s) && s.active != s.daemon && |s.heap| < s.cap
    ensures Inv(WaitForIo(s, deadline))
    ensures var s2 := WaitForIo(s, deadline); var a := s.active;
            && s2 == s.(io := s.io + [a], heap := s2.heap,
                        th := s.th[a := s.th[a].(wakeup := deadline, ioFlag := true, sleepFlag := true, link := InIo)])
            && (forall n :: n in s2.heap <==> n in s.heap || n == Node(a, deadline))
  {
    var a := s.active;
    SetWakeupKeeps(s, deadline);
    var s1 := SetWakeup(s, a, deadline);
    assert Placed(s1, a);
    InsertIOWaitKeeps(s1, a);
    var h := InsertIOWaitEffect(s1, a);
    SetTwice(s.th, a, s.th[a].(wakeup := deadline),
             s.th[a].(wakeup := deadline, ioFlag := true, sleepFlag := true, link := InIo));
  }

  function DoSleep<T(==)>(y: Sys<T>, ms: int, now: int): Sys<T>
    requires Quiet(y.s) && y.s.active != y.s.daemon && |y.s.heap| < y.s.cap
  {
    hide Inv;
    FallAsleepExact(y.s, now + ms);
    Switch(y, FallAsleep(y.s, now + ms), AtSleep, now)
  }

  /** TakeNotified. */
  function Take<T(==)>(y: Sys<T>, t: T): Sys<T>
    requires t in y.s.th
  {
    y.(s := SetRec(y.s, t, y.s.th[t].(notified := false)))
  }

  function DoNotifyWait<T(==)>(y: Sys<T>, ms: int, now: int): (Sys<T>, Outcome)
    requires Quiet(y.s) && y.s.active != y.s.daemon && |y.s.heap| < y.s.cap
  {
    hide Inv;
    if y.s.th[y.s.active].notified then (Take(y, y.s.active).(clock := now), NotifyWaitResult(true))
    else if ms == 0 then (y.(clock := now), NotifyWaitResult(false))
    else
      FallAsleepExact(y.s, now + Normalize(ms));
      (Switch(y, FallAsleep(y.s, now + Normalize(ms)), AtNotifyWait, now), Silent)
  }

  /** Schedule with one item: parked at p, or, when the item cannot be added, back with the wakeup
      time already changed. */
  function TryIo<T(==)>(y: Sys<T>, ms: int, now: int, added: bool, p: Park): Sys<T>
    requires Quiet(y.s) && y.s.active != y.s.daemon && |y.s.heap| < y.s.cap
  {
    var deadline := now + Normalize(ms);
    if !added then y.(s := SetWakeup(y.s, y.s.active, deadline), clock := now)
    else
      WaitForIoExact(y.s, deadline);
      Switch(y, WaitForIo(y.s, deadline), p, now)
  }

  function DoWait<T(==)>(y: Sys<T>, ms: int, now: int, added: bool, fdReady: bool): (Sys<T>, Outcome)
    requires Quiet(y.s) && y.s.active != y.s.daemon && |y.s.heap| < y.s.cap
  {
    if y.s.th[y.s.active].notified then (Take(y, y.s.active).(clock := now), WaitResult(fdReady, true))
    else (TryIo(y, ms, now, added, AtWait), if added then Silent else AddFailed)
  }

  /** The call the coroutine was parked in returns. */
  function DoResume<T(==)>(y: Sys<T>, events: bool): (Sys<T>, Outcome)
    requires SysInv(y) && Enabled(y, Resume(events))
  {
    var a := y.s.active;
    var y1 := y.(park := y.park[a := Running]);
    match y.park[a]
    case AtNotifyWait => (Take(y1, a), NotifyWaitResult(y.s.th[a].notified))
    case AtWait => (Take(y1, a), WaitResult(events, y.s.th[a].notified))
    case _ => (y1, Silent)
  }

  function DoPend<T(==)>(y: Sys<T>): Sys<T>
    requires SysInv(y) && InClient(y)
  {
    InsertPendKeeps(y.s, y.s.active);
    Switch(y, InsertPend(y.s, y.s.active), AtPend, y.clock)
  }

  function DoCreate<T(==)>(y: Sys<T>, newcomer: T, runable: bool): Sys<T>
    requires SysInv(y) && Enabled(y, Event.Create(newcomer, runable))
  {
    var (s', t) := SchedLifecycle.Create(y.s, newcomer, runable);
    y.(s := s', park := y.park[t := Fresh])
  }

  function DoFinish<T(==)>(y: Sys<T>): Sys<T>
    requires SysInv(y) && Enabled(y, Finish)
  {
    var a := y.s.active;
    FinishReady(y);
    var s1 := if y.s.th[a].kind == SubThread then WakeupParent(y.s, a) else y.s;
    ShelveKeeps(s1);
    Switch(y, Shelve(s1, a), AtRecycled, y.clock)
  }

  lemma FinishReady<T>(y: Sys<T>)
    requires SysInv(y) && Enabled(y, Finish)
    ensures y.s.th[y.s.active].kind == SubThread ==>
              Recyclable(WakeupParent(y.s, y.s.active)) && WakeupParent(y.s, y.s.active).active == y.s.active
  {
    if y.s.th[y.s.active].kind == SubThread {
      WakeupParentKeeps(y.s, y.s.active);
    }
  }

  /** One turn of the daemon after the poll: the fired events' owners, the new clock, the sleepers due
      by then, and the switch. */
  function DoTurn<T(==)>(y: Sys<T>, owners: seq<T>, now: int): Sys<T>
    requires SysInv(y) && Enabled(y, Turn(owners, now))
  {
    TurnReady(y.s, owners, now);
    var s2 := Wakeup(WakeOwners(y.s, owners), now);
    Switch(y, s2, DaemonLoop, now).(lastClock := now)
  }

  lemma TurnReady<T>(s: Sched<T>, owners: seq<T>, now: int)
    requires Quiet(s) && forall t :: t in owners ==> t in s.th
    ensures Quiet(WakeOwners(s, owners)) && Quiet(Wakeup(WakeOwners(s, owners), now))
  {
    var woken := WakeOwnersExact(s, owners);
    var due := WakeupExact(WakeOwners(s, owners), now);
  }

  function Step<T(==)>(y: Sys<T>, e: Event<T>): (Sys<T>, Outcome)
    requires SysInv(y) && Enabled(y, e)
  {
    match e
    case Sleep(ms, now) => (DoSleep(y, ms, now), Silent)
    case NotifyWait(ms, now) => DoNotifyWait(y, ms, now)
    case Wait(ms, now, added, fdReady) => DoWait(y, ms, now, added, fdReady)
    case Io(ms, now, added) => (TryIo(y, ms, now, added, AtIo), Silent)
    case Resume(events) => DoResume(y, events)
    case Notify(t) => NotifyExact(y.s, t); (y.(s := SchedModel.Notify(y.s, t)), Silent)
    case Pend => (DoPend(y), Silent)
    case Unpend(t) => (y.(s := SchedModel.Unpend(y.s, t)), Silent)
    case Create(t, runable) => (DoCreate(y, t, runable), Silent)
    case Start(t) => (y.(s := InsertRunable(y.s, t)), Silent)
    case AddSub(p, c) => (y.(s := SchedLifecycle.AddSub(y.s, p, c)), Silent)
    case MakeSub(c) => (y.(s := SetRec(y.s, c, y.s.th[c].(kind := SubThread))), Silent)
    case Finish => (DoFinish(y), Silent)
    case Turn(owners, now) => (DoTurn(y, owners, now), Silent)
  }

  // ---------- each step keeps the invariant ----------

  /** A step that moves nobody but may change one coroutine's labels. */
  lemma RelabelStep<T>(y: Sys<T>, t: T, r: Rec<T>, park: map<T, Park>, now: int)
    requires SysInv(y) && Relabels(y.s, t, r) && now >= y.clock
    requires park == y.park
             || (park == y.park[y.s.active := Running] && y.s.active != y.s.daemon && y.s.active in y.s.th)
    requires r.notified ==> y.s.th[t].notified
    ensures SysInv(y.(s := SetRec(y.s, t, r), park := park, clock := now))
  {
    SetRecKeeps(y.s, t, r);
    var y' := y.(s := SetRec(y.s, t, r), park := park, clock := now);
    assert Placed(y.s, y.s.active);
    forall x | x in y'.s.th
      ensures x in y'.park && ParkOk(y'.s, x, y'.park[x])
    {
      assert ParkOk(y.s, x, y.park[x]);
    }
  }

  lemma SleepBlocks<T>(y: Sys<T>, deadline: int, p: Park)
    requires SysInv(y) && InClient(y) && |y.s.heap| < y.s.cap
    requires p == AtSleep || (p == AtNotifyWait && !y.s.th[y.s.active].notified)
    ensures Inv(FallAsleep(y.s, deadline)) && Blocks(y, FallAsleep(y.s, deadline), p)
  {
    FallAsleepExact(y.s, deadline);
    var s2 := FallAsleep(y.s, deadline);
    assert s2.th.Keys == y.s.th.Keys;
  }

  lemma IoBlocks<T>(y: Sys<T>, deadline: int, p: Park)
    requires SysInv(y) && InClient(y) && |y.s.heap| < y.s.cap
    requires p == AtIo || (p == AtWait && !y.s.th[y.s.active].notified)
    ensures Inv(WaitForIo(y.s, deadline)) && Blocks(y, WaitForIo(y.s, deadline), p)
  {
    WaitForIoExact(y.s, deadline);
    var s2 := WaitForIo(y.s, deadline);
    assert s2.th.Keys == y.s.th.Keys;
  }

  lemma TryIoKeeps<T>(y: Sys<T>, ms: int, now: int, added: bool, p: Park)
    requires SysInv(y) && InClient(y) && |y.s.heap| < y.s.cap && now >= y.clock
    requires p == AtIo || (p == AtWait && !y.s.th[y.s.active].notified)
    ensures SysInv(TryIo(y, ms, now, added, p))
  {
    hide Inv, ParksOk, WaitForIo, SetRec, Switch;
    var deadline := now + Normalize(ms);
    if added {
      IoBlocks(y, deadline, p);
      SwitchKeeps(y, WaitForIo(y.s, deadline), p, now);
    } else {
      RelabelStep(y, y.s.active, y.s.th[y.s.active].(wakeup := deadline), y.park, now);
    }
  }

  lemma TakeKeeps<T>(y: Sys<T>, now: int)
    requires SysInv(y) && now >= y.clock
    ensures SysInv(Take(y, y.s.active).(clock := now))
  {
    RelabelStep(y, y.s.active, y.s.th[y.s.active].(notified := false), y.park, now);
  }

  lemma ParkKeeps<T>(y: Sys<T>, deadline: int, p: Park, now: int)
    requires SysInv(y) && InClient(y) && |y.s.heap| < y.s.cap && now >= y.clock
    requires p == AtSleep || (p == AtNotifyWait && !y.s.th[y.s.active].notified)
    ensures Inv(FallAsleep(y.s, deadline))
    ensures SysInv(Switch(y, FallAsleep(y.s, deadline), p, now))
  {
    SleepBlocks(y, deadline, p);
    SwitchKeeps(y, FallAsleep(y.s, deadline), p, now);
  }

  lemma NotifyWaitKeeps<T>(y: Sys<T>, ms: int, now: int)
    requires SysInv(y) && InClient(y) && |y.s.heap| < y.s.cap && now >= y.clock
    ensures SysInv(DoNotifyWait(y, ms, now).0)
  {
    hide Inv, ParksOk;
    if y.s.th[y.s.active].notified {
      TakeKeeps(y, now);
    } else if ms == 0 {
      ClockKeeps(y, now);
    } else {
      ParkKeeps(y, now + Normalize(ms), AtNotifyWait, now);
    }
  }

  lemma ClockKeeps<T>(y: Sys<T>, now: int)
    requires SysInv(y) && now >= y.clock
    ensures SysInv(y.(clock := now))
  {
  }

  lemma ResumeKeeps<T>(y: Sys<T>, events: bool)
    requires SysInv(y) && Enabled(y, Resume(events))
    ensures SysInv(DoResume(y, events).0)
  {
    hide Inv, ParksOk;
    var a := y.s.active;
    var park := y.park[a := Running];
    RelabelStep(y, a, y.s.th[a].(notified := false), park, y.clock);
    RelabelStep(y, a, y.s.th[a], park, y.clock);
    assert SetRec(y.s, a, y.s.th[a]) == y.s;
    var y1 := y.(park := park);
    assert y1 == y.(s := SetRec(y.s, a, y.s.th[a]), park := park, clock := y.clock);
    assert Take(y1, a) == y.(s := SetRec(y.s, a, y.s.th[a].(notified := false)), park := park, clock := y.clock);
  }

  /** Everyone is where he was, or has become runnable. */
  ghost predicate Readies<T>(s: Sched<T>, s': Sched<T>)
  {
    && s'.active == s.active && s'.daemon == s.daemon && s'.idle == s.idle && s'.reclaim == s.reclaim
    && s'.th.Keys == s.th.Keys
    && (forall t :: t in s.th ==> ReadyOrSame(s, s', t))
  }

  ghost predicate ReadyOrSame<T>(s: Sched<T>, s': Sched<T>, t: T)
    requires t in s.th && t in s'.th
  {
    var r, r' := s.th[t], s'.th[t];
    || (r'.link == r.link && r'.sleepFlag == r.sleepFlag && (r'.notified == r.notified || !r'.sleepFlag))
    || (r'.link == InRun && r.link != InReclaim && t != s.active && t != s.daemon && t !in s.idle)
  }

  lemma ReadyKeeps<T>(y: Sys<T>, s': Sched<T>)
    requires SysInv(y) && Quiet(s') && Readies(y.s, s')
    ensures SysInv(y.(s := s'))
  {
    forall t | t in s'.th
      ensures t in y.park && ParkOk(s', t, y.park[t])
    {
      assert ParkOk(y.s, t, y.park[t]);
      assert ReadyOrSame(y.s, s', t);
      assert Placed(s', t);
    }
  }

  lemma NotifiedReadies<T>(s: Sched<T>, s': Sched<T>, t: T)
    requires Quiet(s) && t in s.th && Notified(s, s', t)
    ensures Readies(s, s')
  {
    assert Placed(s, t) && Placed(s, s.active) && Placed(s, s.daemon);
    assert s'.th.Keys == s.th.Keys;
    forall x | x in s.th
      ensures ReadyOrSame(s, s', x)
    {
      if x != t {
        assert s'.th[x] == s.th[x];
      } else if s.th[t].sleepFlag {
        assert s'.th[t].link == InRun;
      }
    }
  }

  lemma UnpendExact<T>(s: Sched<T>, t: T)
    requires Quiet(s) && t in s.th && s.th[t].link == InPend
    ensures Quiet(SchedModel.Unpend(s, t))
    ensures SchedModel.Unpend(s, t)
         == s.(pend := Drop(s.pend, t), run := s.run + [t],
               th := s.th[t := s.th[t].(pendFlag := false, runFlag := true, link := InRun)])
  {
    assert Placed(s, t);
    UnpendKeeps(s, t);
    LeavePendEffect(s, t);
    LeavePendKeeps(s, t);
    var r := s.th[t].(pendFlag := false, link := Unlinked);
    var s1 := s.(pend := Drop(s.pend, t), th := s.th[t := r]);
    InsertRunableKeeps(s1, t);
    SetTwice(s.th, t, r, r.(runFlag := true, link := InRun));
  }

  lemma UnpendStepKeeps<T>(y: Sys<T>, t: T)
    requires SysInv(y) && t in y.s.th && y.s.th[t].link == InPend
    ensures SysInv(y.(s := SchedModel.Unpend(y.s, t)))
  {
    assert Placed(y.s, t);
    UnpendExact(y.s, t);
    ReadyKeeps(y, SchedModel.Unpend(y.s, t));
  }

  lemma StartKeeps<T>(y: Sys<T>, t: T)
    requires SysInv(y) && Loose(y.s, t) && t in y.park && y.park[t] == Fresh && t != y.s.active
    ensures SysInv(y.(s := InsertRunable(y.s, t)))
  {
    InsertRunableKeeps(y.s, t);
    var s' := InsertRunable(y.s, t);
    assert Placed(s', y.s.active);
    assert s'.th.Keys == y.s.th.Keys;
    ReadyKeeps(y, s');
  }

  lemma TreeStepKeeps<T>(y: Sys<T>, s': Sched<T>)
    requires SysInv(y) && Quiet(s') && TreeMoves(y.s, s')
    ensures SysInv(y.(s := s'))
  {
    forall t | t in y.s.th
      ensures ReadyOrSame(y.s, s', t)
    {
      assert s'.th[t] == y.s.th[t].(parent := s'.th[t].parent, subs := s'.th[t].subs, subFlag := s'.th[t].subFlag);
    }
    ReadyKeeps(y, s');
  }

  lemma AddSubStepKeeps<T>(y: Sys<T>, p: T, c: T)
    requires SysInv(y) && InUse(y.s, p) && InUse(y.s, c)
    ensures SysInv(y.(s := SchedLifecycle.AddSub(y.s, p, c)))
  {
    AddSubKeeps(y.s, p, c);
    if !y.s.th[c].subFlag {
      RelinkMoves(y.s, p, y.s.th[p].subs + [c], c, Some(p));
      TreeStepKeeps(y, SchedLifecycle.AddSub(y.s, p, c));
    }
  }

  lemma CreateStepKeeps<T>(y: Sys<T>, newcomer: T, runable: bool)
    requires SysInv(y) && newcomer !in y.s.th
    ensures var (s', t) := SchedLifecycle.Create(y.s, newcomer, runable);
            SysInv(y.(s := s', park := y.park[t := Fresh]))
  {
    AllocKeeps(y.s, newcomer);
    var (s1, t) := Alloc(y.s, newcomer);
    var y1 := y.(s := s1, park := y.park[t := Fresh]);
    AllocParks(y, newcomer);
    if runable {
      StartKeeps(y1, t);
    }
  }

  lemma AllocParks<T>(y: Sys<T>, newcomer: T)
    requires SysInv(y) && newcomer !in y.s.th
    ensures var (s1, t) := Alloc(y.s, newcomer); SysInv(y.(s := s1, park := y.park[t := Fresh]))
  {
    AllocKeeps(y.s, newcomer);
    var (s1, t) := Alloc(y.s, newcomer);
    var park := y.park[t := Fresh];
    forall x | x in s1.th
      ensures x in park && ParkOk(s1, x, park[x])
    {
      if x != t {
        assert ParkOk(y.s, x, y.park[x]);
        assert x in s1.idle <==> x in y.s.idle by {
          if y.s.idle != [] {
            assert y.s.idle == [y.s.idle[0]] + y.s.idle[1..];
          }
        }
      }
    }
  }

  lemma RemoveSubStepKeeps<T>(y: Sys<T>, p: T, c: T)
    requires SysInv(y) && c in y.s.th && y.s.th[c].parent == Some(p)
    ensures p in y.s.th && SysInv(y.(s := RemoveSub(y.s, p, c)))
    ensures RemoveSub(y.s, p, c).th[p].link == y.s.th[p].link
    ensures RemoveSub(y.s, p, c).th[p].subs == Drop(y.s.th[p].subs, c)
  {
    RemoveSubTree(y.s, p, c);
    RemoveSubKeeps(y.s, p, c);
    RelinkMoves(y.s, p, Drop(y.s.th[p].subs, c), c, None);
    TreeStepKeeps(y, RemoveSub(y.s, p, c));
  }

  lemma WakeupParentStepKeeps<T>(y: Sys<T>)
    requires SysInv(y) && ParentReady(y.s, y.s.active)
    ensures SysInv(y.(s := WakeupParent(y.s, y.s.active)))
  {
    var t := y.s.active;
    if y.s.th[t].parent.Some? {
      var p := y.s.th[t].parent.value;
      RemoveSubTree(y.s, p, t);
      RemoveSubStepKeeps(y, p, t);
      var s1 := RemoveSub(y.s, p, t);
      if s1.th[p].subs == [] {
        UnpendStepKeeps(y.(s := s1), p);
      }
    }
  }

  lemma ShelveBlocks<T>(y: Sys<T>)
    requires SysInv(y) && Recyclable(y.s)
    ensures LinksMatch(y.s, y.s.active) && Inv(Shelve(y.s, y.s.active))
    ensures Blocks(y, Shelve(y.s, y.s.active), AtRecycled)
  {
    var a := y.s.active;
    ShelveKeeps(y.s);
    var s2 := Shelve(y.s, a);
    DetachActive(y.s);
    DetachPlaces(y.s);
    forall t | t in y.s.th && t != a
      ensures && s2.th[t].link == y.s.th[t].link && s2.th[t].sleepFlag == y.s.th[t].sleepFlag
              && s2.th[t].notified == y.s.th[t].notified
    {
      assert s2.th[t] == Detach(y.s, a).th[t];
    }
  }

  lemma DetachPlaces<T>(s: Sched<T>)
    requires Recyclable(s)
    ensures LinksMatch(s, s.active)
    ensures forall t :: t in s.th ==>
              && t in Detach(s, s.active).th
              && Detach(s, s.active).th[t].link == s.th[t].link
              && Detach(s, s.active).th[t].sleepFlag == s.th[t].sleepFlag
              && Detach(s, s.active).th[t].notified == s.th[t].notified
    ensures Detach(s, s.active).idle == s.idle
  {
    var t := s.active;
    DetachActive(s);
    assert Placed(s, t) && TreeAt(s, t);
    if s.th[t].parent.Some? {
      var p := s.th[t].parent.value;
      RelinkMoves(s, p, Drop(s.th[p].subs, t), t, None);
      var s1 := RemoveSub(s, p, t);
      forall x | x in s.th
        ensures x in s1.th && s1.th[x].link == s.th[x].link && s1.th[x].sleepFlag == s.th[x].sleepFlag
                && s1.th[x].notified == s.th[x].notified
      {
        assert s1.th[x] == s.th[x].(parent := s1.th[x].parent, subs := s1.th[x].subs, subFlag := s1.th[x].subFlag);
      }
    }
  }

  lemma FinishKeeps<T>(y: Sys<T>)
    requires SysInv(y) && Enabled(y, Finish)
    ensures SysInv(DoFinish(y))
  {
    var a := y.s.active;
    FinishReady(y);
    var s1 := if y.s.th[a].kind == SubThread then WakeupParent(y.s, a) else y.s;
    if y.s.th[a].kind == SubThread {
      WakeupParentStepKeeps(y);
    }
    var y1 := y.(s := s1);
    ShelveBlocks(y1);
    SwitchKeeps(y1, Shelve(s1, a), AtRecycled, y.clock);
  }

  lemma OwnersKeep<T>(y: Sys<T>, owners: seq<T>)
    requires SysInv(y) && forall t :: t in owners ==> t in y.s.th
    ensures SysInv(y.(s := WakeOwners(y.s, owners)))
    ensures WakeOwners(y.s, owners).active == y.s.active && WakeOwners(y.s, owners).daemon == y.s.daemon
  {
    var woken := WakeOwnersExact(y.s, owners);
    forall t | t in woken
      ensures t in y.s.th && y.s.th[t].sleepFlag
    {
      assert Placed(y.s, t);
    }
    MovedReadies(y.s, WakeOwners(y.s, owners), woken);
    ReadyKeeps(y, WakeOwners(y.s, owners));
  }

  lemma SleepersKeep<T>(y: Sys<T>, now: int)
    requires SysInv(y)
    ensures SysInv(y.(s := Wakeup(y.s, now)))
    ensures Wakeup(y.s, now).active == y.s.active && Wakeup(y.s, now).daemon == y.s.daemon
  {
    var due := WakeupExact(y.s, now);
    MovedReadies(y.s, Wakeup(y.s, now), due);
    ReadyKeeps(y, Wakeup(y.s, now));
  }

  lemma DaemonBlocks<T>(y: Sys<T>)
    requires SysInv(y) && y.s.active == y.s.daemon
    ensures Blocks(y, y.s, DaemonLoop)
  {
    assert ParkOk(y.s, y.s.active, y.park[y.s.active]);
  }

  lemma TurnKeeps<T>(y: Sys<T>, owners: seq<T>, now: int)
    requires SysInv(y) && Enabled(y, Turn(owners, now))
    ensures SysInv(DoTurn(y, owners, now))
  {
    TurnReady(y.s, owners, now);
    OwnersKeep(y, owners);
    var y1 := y.(s := WakeOwners(y.s, owners));
    SleepersKeep(y1, now);
    var y2 := y1.(s := Wakeup(y1.s, now));
    DaemonBlocks(y2);
    SwitchKeeps(y2, y2.s, DaemonLoop, now);
  }

  lemma MovedReadies<T>(s: Sched<T>, s': Sched<T>, woken: seq<T>)
    requires Quiet(s) && MovedToRun(s, s', woken)
    requires forall t :: t in woken ==> t in s.th && s.th[t].sleepFlag
    ensures Readies(s, s')
  {
    forall t | t in s.th
      ensures ReadyOrSame(s, s', t)
    {
      assert Placed(s, t);
    }
  }

  lemma PendBlocks<T>(y: Sys<T>)
    requires SysInv(y) && InClient(y)
    ensures Inv(InsertPend(y.s, y.s.active)) && Blocks(y, InsertPend(y.s, y.s.active), AtPend)
  {
    InsertPendKeeps(y.s, y.s.active);
    var s2 := InsertPend(y.s, y.s.active);
    assert Placed(y.s, y.s.active);
    SetTwice(y.s.th, y.s.active, y.s.th[y.s.active].(pendFlag := true),
             y.s.th[y.s.active].(pendFlag := true, link := InPend));
    assert s2.th.Keys == y.s.th.Keys;
  }

  lemma WaitKeeps<T>(y: Sys<T>, ms: int, now: int, added: bool, fdReady: bool)
    requires SysInv(y) && InClient(y) && |y.s.heap| < y.s.cap && now >= y.clock
    ensures SysInv(DoWait(y, ms, now, added, fdReady).0)
  {
    if y.s.th[y.s.active].notified {
      TakeKeeps(y, now);
    } else {
      TryIoKeeps(y, ms, now, added, AtWait);
    }
  }

  lemma PendKeeps<T>(y: Sys<T>)
    requires SysInv(y) && InClient(y)
    ensures SysInv(DoPend(y))
  {
    PendBlocks(y);
    SwitchKeeps(y, InsertPend(y.s, y.s.active), AtPend, y.clock);
  }

  lemma NotifyStepKeeps<T>(y: Sys<T>, t: T)
    requires SysInv(y) && t in y.s.th
    ensures NotifyReady(y.s, t) && SysInv(y.(s := SchedModel.Notify(y.s, t)))
  {
    NotifyExact(y.s, t);
    NotifiedReadies(y.s, SchedModel.Notify(y.s, t), t);
    ReadyKeeps(y, SchedModel.Notify(y.s, t));
  }

  /** Every step keeps the invariant. */
  lemma StepKeeps<T>(y: Sys<T>, e: Event<T>)
    requires SysInv(y) && Enabled(y, e)
    ensures SysInv(Step(y, e).0)
  {
    hide Inv, ParksOk, DoFinish, DoTurn, DoNotifyWait, DoWait, TryIo, DoResume, Switch, FallAsleep, InsertPend,
      InsertRunable, Yield, Free;
    match e
    case Sleep(ms, now) => ParkKeeps(y, now + ms, AtSleep, now);
    case NotifyWait(ms, now) => NotifyWaitKeeps(y, ms, now);
    case Wait(ms, now, added, fdReady) => WaitKeeps(y, ms, now, added, fdReady);
    case Io(ms, now, added) => TryIoKeeps(y, ms, now, added, AtIo);
    case Pend => PendKeeps(y);
    case Resume(events) => ResumeKeeps(y, events);
    case Notify(t) => NotifyStepKeeps(y, t);
    case Unpend(t) => UnpendStepKeeps(y, t);
    case Create(t, runable) => CreateStepKeeps(y, t, runable);
    case Start(t) => StartKeeps(y, t);
    case AddSub(p, c) => AddSubStepKeeps(y, p, c);
    case MakeSub(c) =>
      RelabelStep(y, c, y.s.th[c].(kind := SubThread), y.park, y.clock);
    case Finish => FinishKeeps(y);
    case Turn(owners, now) => TurnKeeps(y, owners, now);
  }

  // ---------- runs ----------

  ghost predicate ValidRun<T>(y: Sys<T>, es: seq<Event<T>>)
    requires SysInv(y)
    decreases |es|
  {
    es == [] ||
    (Enabled(y, es[0]) && (StepKeeps(y, es[0]); ValidRun(Step(y, es[0]).0, es[1..])))
  }

  ghost function Final<T>(y: Sys<T>, es: seq<Event<T>>): (r: Sys<T>)
    requires SysInv(y) && ValidRun(y, es)
    ensures SysInv(r)
    decreases |es|
  {
    if es == [] then y else (StepKeeps(y, es[0]); Final(Step(y, es[0]).0, es[1..]))
  }

  /** The state StSysSchedule::Init leaves: the primordial coroutine active, everything empty. */
  ghost predicate Initial<T>(y: Sys<T>)
  {
    && y.s.daemon != y.s.primo
    && y.s == Sched([], [], [], [], [], y.s.cap,
                    map[y.s.daemon := FreshRec().(kind := Daemon), y.s.primo := FreshRec().(kind := Primordial)],
                    y.s.primo, y.s.daemon, y.s.primo, [], y.s.maxFree, 0)
    && y.park == map[y.s.daemon := DaemonLoop, y.s.primo := Running]
    && y.lastClock == y.clock
  }

  lemma InitialOk<T>(y: Sys<T>)
    requires Initial(y)
    ensures SysInv(y)
  {
    InitialSchedOk(y.s, y.s.daemon, y.s.primo);
    forall t | t in y.s.th
      ensures ParkOk(y.s, t, y.park[t])
    {
    }
  }

  lemma InitialSchedOk<T>(s: Sched<T>, d: T, p: T)
    requires d != p
    requires s == Sched([], [], [], [], [], s.cap,
                        map[d := FreshRec().(kind := Daemon), p := FreshRec().(kind := Primordial)],
                        p, d, p, [], s.maxFree, 0)
    ensures Quiet(s)
  {
    forall t | t in s.th
      ensures Placed(s, t)
    {
    }
    forall t | t in s.th
      ensures TreeAt(s, t)
    {
    }
    assert s.th.Keys - {d, p} == {};
  }
}
