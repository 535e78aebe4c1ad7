/** What the steps of a run do to the coroutines that wait for a descriptor. */
module WaitSched {
  import opened HeapModel
  import opened Queues
  import opened SchedModel
  import opened SchedInvariant
  import opened SchedOps
  import opened SchedLifecycle
  import opened SchedRuns

  /** Parked in st_wait or in WaitFdReady. */
  predicate Waits<T>(y: Sys<T>, t: T)
  {
    t in y.park && (y.park[t] == AtWait || y.park[t] == AtIo)
  }

  /** The coroutines parked in these calls. */
  function Waiters<T(==)>(y: Sys<T>): set<T>
  {
    set t | t in y.s.th && Waits(y, t)
  }

  /** Nobody begins or ends a wait, and nobody enters the IO queue. */
  ghost predicate Calm<T>(y: Sys<T>, y': Sys<T>)
  {
    (forall t :: t in y'.s.io ==> t in y.s.io) && Waiters(y') == Waiters(y)
  }

  /** A coroutine that is deleted was parked in none. */
  lemma DeletedWaitsNot<T>(y: Sys<T>, t: T)
    requires SysInv(y) && t in y.s.th && (t in y.s.reclaim || t in y.s.idle)
    ensures !Waits(y, t)
  {
    At(y.s, t);
    assert ParkOk(y.s, t, y.park[t]);
  }

  /** After a switch from s2 the coroutine that switched away waits for a descriptor or not, as p says, and the
      others as before. */
  lemma SwitchWaiters<T>(y: Sys<T>, s2: Sched<T>, y': Sys<T>, p: Park)
    requires SysInv(y) && Switched(s2, y'.s) && y'.park == y.park[y.s.active := p]
    requires s2.active == y.s.active && s2.th.Keys == y.s.th.Keys && y.s.active in y.s.th
    requires forall t :: t in s2.reclaim ==> t in y.s.reclaim || t == y.s.active
    requires !Waits(y, y.s.active)
    ensures Waiters(y') == if p == AtWait || p == AtIo then Waiters(y) + {y.s.active} else Waiters(y)
  {
    hide SysInv;
    forall t | t in Waiters(y)
      ensures t in Waiters(y')
    {
      if t !in y'.s.th {
        assert t in s2.th && t in s2.reclaim;
        DeletedWaitsNot(y, t);
      }
    }
    assert y.s.active in y'.s.th;
    assert forall t :: t in Waiters(y') && t != y.s.active ==> t in Waiters(y);
  }

  /** A step without a switch in which nobody waits anew. */
  lemma StillIsCalm<T>(y: Sys<T>, y': Sys<T>)
    requires y'.s.th.Keys == y.s.th.Keys && (forall t :: t in y'.s.io ==> t in y.s.io)
    requires forall t :: t in y.s.th ==> (Waits(y', t) <==> Waits(y, t))
    ensures Calm(y, y')
  {
  }

  /** A step other than the beginning or the end of a wait. */
  ghost predicate Unrelated<T>(y: Sys<T>, e: Event<T>)
  {
    !e.Wait? && !e.Io? && (e.Resume? ==> !Waits(y, y.s.active))
  }

  lemma RunningWaitsNot<T>(y: Sys<T>)
    requires SysInv(y) && (InClient(y) || y.s.active == y.s.daemon)
    ensures y.s.active in y.s.th && !Waits(y, y.s.active)
  {
    assert ParkOk(y.s, y.s.active, y.park[y.s.active]);
  }

  lemma SleepIsCalm<T>(y: Sys<T>, deadline: int, p: Park, now: int)
    requires SysInv(y) && InClient(y) && |y.s.heap| < y.s.cap && (p == AtSleep || p == AtNotifyWait)
    ensures Inv(FallAsleep(y.s, deadline)) && Calm(y, Switch(y, FallAsleep(y.s, deadline), p, now))
  {
    hide Inv, ParksOk, FallAsleep, Yield;
    RunningWaitsNot(y);
    FallAsleepExact(y.s, deadline);
    var s2 := FallAsleep(y.s, deadline);
    YieldExact(s2);
    SwitchWaiters(y, s2, Switch(y, s2, p, now), p);
  }

  lemma PendIsCalm<T>(y: Sys<T>)
    requires SysInv(y) && InClient(y)
    ensures Calm(y, DoPend(y))
  {
    hide Inv, ParksOk, Yield;
    RunningWaitsNot(y);
    InsertPendKeeps(y.s, y.s.active);
    var s2 := InsertPend(y.s, y.s.active);
    YieldExact(s2);
    SwitchWaiters(y, s2, DoPend(y), AtPend);
  }

  lemma FinishIsCalm<T>(y: Sys<T>)
    requires SysInv(y) && Enabled(y, Finish)
    ensures Calm(y, DoFinish(y))
  {
    hide Inv, ParksOk, Shelve, WakeupParent, Yield;
    RunningWaitsNot(y);
    var a := y.s.active;
    FinishReady(y);
    var s1 := if y.s.th[a].kind == SubThread then WakeupParent(y.s, a) else y.s;
    if y.s.th[a].kind == SubThread {
      ParentKeepsIo(y.s, a);
    }
    ShelveKeeps(s1);
    var s2 := Shelve(s1, a);
    YieldExact(s2);
    SwitchWaiters(y, s2, DoFinish(y), AtRecycled);
  }

  lemma ParentKeepsIo<T>(s: Sched<T>, t: T)
    requires Quiet(s) && t == s.active && ParentReady(s, t)
    ensures var s' := WakeupParent(s, t); s'.io == s.io && s'.reclaim == s.reclaim && s'.th.Keys == s.th.Keys
  {
    hide Inv;
    if s.th[t].parent.Some? {
      var p := s.th[t].parent.value;
      RemoveSubKeeps(s, p, t);
      RelinkMoves(s, p, Drop(s.th[p].subs, t), t, None);
      var s1 := RemoveSub(s, p, t);
      assert TreeMoves(s, s1);
      assert s1.th[p] == s.th[p].(parent := s1.th[p].parent, subs := s1.th[p].subs, subFlag := s1.th[p].subFlag);
      if s1.th[p].subs == [] {
        UnpendExact(s1, p);
      }
    }
  }

  lemma TurnIsCalm<T>(y: Sys<T>, owners: seq<T>, now: int)
    requires SysInv(y) && Enabled(y, Turn(owners, now))
    ensures Calm(y, DoTurn(y, owners, now))
  {
    hide Inv, ParksOk, WakeOwners, Wakeup, IsDue, Yield;
    RunningWaitsNot(y);
    TurnReady(y.s, owners, now);
    var woken := WakeOwnersExact(y.s, owners);
    var s1 := WakeOwners(y.s, owners);
    var due := WakeupExact(s1, now);
    var s2 := Wakeup(s1, now);
    YieldExact(s2);
    SwitchWaiters(y, s2, DoTurn(y, owners, now), DaemonLoop);
  }

  /** A turn takes every owner that was on the IO queue out of it and queues or switches to it. */
  lemma TurnWakes<T>(y: Sys<T>, owners: seq<T>, now: int, t: T)
    requires SysInv(y) && Enabled(y, Turn(owners, now)) && t in owners && t in y.s.io
    ensures var s' := DoTurn(y, owners, now).s; t !in s'.io && (t == s'.active || t in s'.run)
  {
    hide Inv, ParksOk, WakeOwners, Wakeup, IsDue, Yield;
    TurnReady(y.s, owners, now);
    var woken := WakeOwnersExact(y.s, owners);
    var s1 := WakeOwners(y.s, owners);
    var due := WakeupExact(s1, now);
    var s2 := Wakeup(s1, now);
    YieldExact(s2);
    assert t in s1.run && t in s2.run;
  }

  lemma CreateIsCalm<T>(y: Sys<T>, newcomer: T, runable: bool)
    requires SysInv(y) && Enabled(y, Event.Create(newcomer, runable))
    ensures Calm(y, DoCreate(y, newcomer, runable))
  {
    hide Inv, ParksOk;
    AllocKeeps(y.s, newcomer);
    var (s1, t) := Alloc(y.s, newcomer);
    if runable {
      InsertRunableKeeps(s1, t);
    }
    if t in y.s.th {
      DeletedWaitsNot(y, t);
    }
  }

  lemma RelinkIsCalm<T>(y: Sys<T>, p: T, c: T)
    requires SysInv(y) && p in y.s.th && c in y.s.th
    ensures Calm(y, y.(s := SchedLifecycle.AddSub(y.s, p, c)))
  {
    hide Inv, ParksOk, Relink;
    var s1 := SchedLifecycle.AddSub(y.s, p, c);
    if !y.s.th[c].subFlag {
      RelinkMoves(y.s, p, y.s.th[p].subs + [c], c, Some(p));
    }
    assert TreeMoves(y.s, s1);
    StillIsCalm(y, y.(s := s1));
  }

  /** Every other step leaves the waiters alone, or takes some of them out of the IO queue. */
  lemma UnrelatedIsCalm<T>(y: Sys<T>, e: Event<T>)
    requires SysInv(y) && Enabled(y, e) && Unrelated(y, e)
    ensures Calm(y, Step(y, e).0)
  {
    hide Inv, ParksOk, DoFinish, DoTurn, DoCreate, DoPend, Switch, FallAsleep, SchedModel.Notify, SchedModel.Unpend,
      InsertRunable, SchedLifecycle.AddSub, Calm;
    match e
    case Sleep(ms, now) => SleepIsCalm(y, now + ms, AtSleep, now);
    case NotifyWait(ms, now) =>
      if !y.s.th[y.s.active].notified && ms != 0 {
        SleepIsCalm(y, now + Normalize(ms), AtNotifyWait, now);
      } else {
        StillIsCalm(y, Step(y, e).0);
      }
    case Resume(events) => StillIsCalm(y, Step(y, e).0);
    case Notify(t) =>
      NotifyExact(y.s, t);
      StillIsCalm(y, Step(y, e).0);
    case Pend => PendIsCalm(y);
    case Unpend(t) =>
      UnpendExact(y.s, t);
      StillIsCalm(y, Step(y, e).0);
    case Create(t, runable) => CreateIsCalm(y, t, runable);
    case Start(t) =>
      InsertRunableKeeps(y.s, t);
      StillIsCalm(y, Step(y, e).0);
    case AddSub(p, c) => RelinkIsCalm(y, p, c);
    case MakeSub(c) => StillIsCalm(y, Step(y, e).0);
    case Finish => FinishIsCalm(y);
    case Turn(owners, now) => TurnIsCalm(y, owners, now);
  }

  // ---------- the waits themselves ----------

  /** The step is a wait: st_wait or WaitFdReady of the active coroutine. */
  ghost predicate BeginsWait<T>(e: Event<T>)
  {
    e.Wait? || e.Io?
  }

  /** The wait parks: its item was added, and no notification is there. */
  ghost predicate Parks<T>(y: Sys<T>, e: Event<T>)
    requires BeginsWait(e) && y.s.active in y.s.th
  {
    e.added && (e.Wait? ==> !y.s.th[y.s.active].notified)
  }

  /** A wait that returns at once changes no place. */
  lemma EntryIsCalm<T>(y: Sys<T>, e: Event<T>)
    requires SysInv(y) && Enabled(y, e) && BeginsWait(e)
    ensures y.s.active in y.s.th && y.s.active !in y.s.io
    ensures !Parks(y, e) ==> Calm(y, Step(y, e).0) && Step(y, e).0.s.th.Keys == y.s.th.Keys
  {
    At(y.s, y.s.active);
    hide Inv, ParksOk, WaitForIo, Switch;
    if !Parks(y, e) {
      StillIsCalm(y, Step(y, e).0);
    }
  }

  lemma CanPark<T>(y: Sys<T>)
    requires SysInv(y) && InClient(y)
    ensures Quiet(y.s) && y.s.active != y.s.daemon
  {
    hide Inv, ParksOk;
  }

  lemma ParkSwitches<T>(y: Sys<T>, deadline: int, p: Park, now: int)
    requires SysInv(y) && InClient(y) && |y.s.heap| < y.s.cap && (p == AtWait || p == AtIo)
    ensures Inv(WaitForIo(y.s, deadline))
    ensures var y' := Switch(y, WaitForIo(y.s, deadline), p, now); var a := y.s.active;
            && !Waits(y, a) && y'.s.io == y.s.io + [a] && Waiters(y') == Waiters(y) + {a}
  {
    hide Inv, ParksOk, WaitForIo, Yield, Waiters, Waits, SysInv;
    RunningWaitsNot(y);
    CanPark(y);
    WaitForIoExact(y.s, deadline);
    var s2 := WaitForIo(y.s, deadline);
    YieldExact(s2);
    SwitchWaiters(y, s2, Switch(y, s2, p, now), p);
  }

  /** A wait that parks adds the active coroutine to the waiters and to the IO queue, and nobody else. */
  lemma ParkedIs<T>(y: Sys<T>, e: Event<T>)
    requires SysInv(y) && Enabled(y, e) && BeginsWait(e) && y.s.active in y.s.th && Parks(y, e)
    ensures var y' := Step(y, e).0; var a := y.s.active;
            && !Waits(y, a) && y'.s.io == y.s.io + [a] && Waiters(y') == Waiters(y) + {a}
  {
    hide Inv, ParksOk, WaitForIo, Switch, Waits, Waiters;
    ParkSwitches(y, e.now + Normalize(e.ms), if e.Wait? then AtWait else AtIo, e.now);
  }

  /** A wait that ends takes the active coroutine out of the waiters. */
  lemma EndedIs<T>(y: Sys<T>, events: bool)
    requires SysInv(y) && Enabled(y, Resume(events)) && Waits(y, y.s.active)
    ensures var y' := Step(y, Resume(events)).0; var a := y.s.active;
            && a in Waiters(y) && y'.s.io == y.s.io && a !in y.s.io && y'.s.th.Keys == y.s.th.Keys
            && Waiters(y') == Waiters(y) - {a}
  {
    At(y.s, y.s.active);
    hide Inv, ParksOk;
  }
}
