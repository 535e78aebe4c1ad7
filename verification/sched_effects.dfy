/** What single steps of the scheduler do, said of the states before and after them: who is queued, parked,
    reused or recycled, until when a coroutine sleeps, and who is woken. */
module SchedEffects {
  import opened HeapModel
  import opened Queues
  import opened SchedModel
  import opened SchedInvariant
  import opened SchedOps
  import opened SchedLifecycle
  import opened SchedRuns
  import SchedTheorems

  // ---------- parents and children ----------

  /** Without t nothing is left exactly when t was alone. */
  lemma OnlyOne<T>(q: seq<T>, t: T)
    requires NoDup(q) && t in q
    ensures Drop(q, t) == [] <==> q == [t]
    ensures forall x :: x in Drop(q, t) <==> x in q && x != t
  {
    DropKeepsTheRest(q, t);
  }

  /** A coroutine without a parent becomes the last child of p, and nobody else's children change. */
  lemma AddSubExact<T>(s: Sched<T>, p: T, c: T)
    requires Inv(s) && p in s.th && c in s.th && s.th[c].parent.None?
    ensures var s' := SchedLifecycle.AddSub(s, p, c);
            && s'.th.Keys == s.th.Keys && s' == s.(th := s'.th)
            && s'.th[p].subs == s.th[p].subs + [c] && s'.th[c].parent == Some(p) && s'.th[c].subFlag
            && (forall x :: x in s.th && x != p ==> s'.th[x].subs == s.th[x].subs)
            && (forall x :: x in s.th && x != c ==> s'.th[x].parent == s.th[x].parent)
  {
    At(s, c);
    RelinkMoves(s, p, s.th[p].subs + [c], c, Some(p));
  }

  /** A child leaves its parent, and nobody else's children change. */
  lemma RemoveSubExact<T>(s: Sched<T>, p: T, c: T)
    requires Inv(s) && c in s.th && s.th[c].parent == Some(p)
    ensures p in s.th && c in s.th[p].subs && NoDup(s.th[p].subs)
    ensures var s' := RemoveSub(s, p, c);
            && s'.th.Keys == s.th.Keys && s' == s.(th := s'.th) && s'.th[c].parent.None? && !s'.th[c].subFlag
            && (forall x :: x in s'.th[p].subs <==> x in s.th[p].subs && x != c)
            && (forall x :: x in s.th && x != p ==> s'.th[x].subs == s.th[x].subs)
            && (forall x :: x in s.th ==> s'.th[x].link == s.th[x].link && s'.th[x].pendFlag == s.th[x].pendFlag
                                          && s'.th[x].runFlag == s.th[x].runFlag)
  {
    RemoveSubTree(s, p, c);
    At(s, p);
    OnlyOne(s.th[p].subs, c);
    RelinkMoves(s, p, Drop(s.th[p].subs, c), c, None);
  }

  /** When a child that is on no queue ends, its parent is queued exactly when it was the only child left;
      otherwise the parent stays where it was. */
  lemma WakeupParentExact<T>(s: Sched<T>, t: T)
    requires Quiet(s) && t == s.active && ParentReady(s, t) && s.th[t].parent.Some?
    ensures var p := s.th[t].parent.value; var s' := WakeupParent(s, t);
            && p in s.th && p != t && t in s.th[p].subs && s'.th.Keys == s.th.Keys
            && s'.th[t].parent.None? && (forall x :: x in s'.th[p].subs <==> x in s.th[p].subs && x != t)
            && (if s.th[p].subs == [t] then
                  && s.th[p].link == InPend && s'.run == s.run + [p] && p !in s'.pend
                  && s'.th[p].link == InRun && s'.th[p].runFlag && !s'.th[p].pendFlag
                else
                  && s'.run == s.run && s'.pend == s.pend
                  && s'.th[p].link == s.th[p].link && s'.th[p].pendFlag == s.th[p].pendFlag)
  {
    hide Inv, Drop;
    var p := s.th[t].parent.value;
    At(s, t);
    RemoveSubExact(s, p, t);
    RemoveSubKeeps(s, p, t);
    OnlyOne(s.th[p].subs, t);
    var s1 := RemoveSub(s, p, t);
    At(s1, p);
    if s1.th[p].subs == [] {
      UnpendExact(s1, p);
      NoneLeft(s1, p);
    }
  }

  lemma NoneLeft<T>(s: Sched<T>, p: T)
    requires Inv(s) && p in s.th
    ensures NoDup(s.pend) && p !in Drop(s.pend, p)
  {
    DropKeepsTheRest(s.pend, p);
  }

  lemma InQueue<T>(q: seq<T>, t: T)
    ensures t in q <==> q != [] && (t == q[0] || t in q[1..])
  {
  }

  /** The last child of a pended parent ends: the parent is switched to or queued, no longer pended. The end
      of any other child leaves the parent where it was. */
  lemma FinishWakesParent<T>(y: Sys<T>)
    requires SysInv(y) && Enabled(y, Finish)
    requires y.s.th[y.s.active].kind == SubThread && y.s.th[y.s.active].parent.Some?
    ensures var a := y.s.active; var p := y.s.th[a].parent.value; var s' := Step(y, Finish).0.s;
            && p in y.s.th && p in s'.th && p != a
            && (if y.s.th[p].subs == [a]
                then y.s.th[p].link == InPend && (p == s'.active || p in s'.run) && p !in s'.pend
                else && (p in s'.pend <==> p in y.s.pend)
                     && (p != y.s.daemon ==> (p == s'.active || p in s'.run <==> p in y.s.run)))
  {
    hide Inv, ParksOk, Shelve, WakeupParent, Yield;
    var a := y.s.active;
    var p := y.s.th[a].parent.value;
    FinishReady(y);
    WakeupParentExact(y.s, a);
    WakeupParentKeeps(y.s, a);
    var s1 := WakeupParent(y.s, a);
    ShelveKeeps(s1);
    var s2 := Shelve(s1, a);
    YieldExact(s2);
    At(y.s, p);
    At(s1, p);
    InQueue(s2.run, p);
    assert p in s2.th && p !in s2.reclaim;
    assert p in Step(y, Finish).0.s.th;
  }

  // ---------- creating, pending, recycling ----------

  lemma AllocExact<T>(s: Sched<T>, newcomer: T)
    requires Quiet(s) && newcomer !in s.th
    ensures var (s', t) := Alloc(s, newcomer);
            && t in s'.th && t !in s'.idle && s'.th[t].link == Unlinked
            && (if s.idle != [] then
                  t == s.idle[0] && s'.idle == s.idle[1..] && s'.total == s.total && s'.th == s.th
                else
                  && t == newcomer && s'.idle == [] && s'.total == s.total + 1 && s'.th == s.th[t := FreshRec()])
  {
    hide Inv;
    AllocKeeps(s, newcomer);
    if s.idle != [] {
      assert s.idle == [s.idle[0]] + s.idle[1..];
    }
  }

  /** A new coroutine is the one that has been idle longest, as it was left, or, when nobody is idle, one more
      with a fresh record; it is last in the run queue exactly when it is runnable, and nobody else changes. */
  lemma CreateExact<T>(s: Sched<T>, newcomer: T, runable: bool)
    requires Quiet(s) && newcomer !in s.th
    ensures var (s', t) := SchedLifecycle.Create(s, newcomer, runable);
            && t in s'.th && t !in s'.idle && s'.active == s.active && s'.io == s.io && s'.pend == s.pend
            && s'.heap == s.heap && s'.reclaim == s.reclaim
            && (if s.idle != [] then
                  t == s.idle[0] && s'.idle == s.idle[1..] && s'.total == s.total && s'.th.Keys == s.th.Keys
                else
                  && t == newcomer && s'.idle == [] && s'.total == s.total + 1 && s'.th.Keys == s.th.Keys + {t}
                  && s'.th[t].kind == Normal && s'.th[t].parent.None? && s'.th[t].subs == [] && !s'.th[t].notified)
            && (if runable then s'.run == s.run + [t] && s'.th[t].link == InRun
                else s'.run == s.run && s'.th[t].link == Unlinked)
            && (forall x :: x in s.th && x != t ==> s'.th[x] == s.th[x])
  {
    hide Inv, InsertRunable, Alloc;
    AllocKeeps(s, newcomer);
    AllocExact(s, newcomer);
    var (s1, t) := Alloc(s, newcomer);
    if runable {
      InsertRunableKeeps(s1, t);
    }
  }

  /** Pend: the coroutine is last on the pend queue; if it was the active one, the head of the run queue, or
      the daemon, is switched to, else nobody moves. */
  lemma PendExact<T>(s: Sched<T>, t: T)
    requires Quiet(s) && Loose(s, t) && t !in s.reclaim
    ensures var s' := SchedLifecycle.Pend(s, t);
            && s'.pend == s.pend + [t] && t in s'.th && s'.th[t].link == InPend && s'.th[t].pendFlag
            && s'.io == s.io && s'.heap == s.heap
            && (if t == s.active
                then && s'.active == (if s.run == [] then s.daemon else s.run[0])
                     && s'.run == (if s.run == [] then [] else s.run[1..])
                else s'.active == s.active && s'.run == s.run)
  {
    hide Inv, Yield;
    At(s, t);
    InsertPendKeeps(s, t);
    SchedTheorems.PendExact(s, t);
    var s1 := InsertPend(s, t);
    if t == s.active {
      YieldExact(s1);
      NotQueued(s1, t);
      assert t in s1.th && t !in s1.reclaim;
      assert t in Yield(s1).th;
    }
  }

  lemma NotQueued<T>(s: Sched<T>, t: T)
    requires Inv(s) && t in s.th && s.th[t].link == InPend
    ensures t !in s.run
  {
    At(s, t);
  }

  /** Recycle: the coroutine is, as good as new, the last idle one, or, when enough are idle, waits to be
      deleted; somebody else runs. */
  lemma RecycleExact<T>(s: Sched<T>)
    requires Recyclable(s)
    ensures var a := s.active; var s' := Recycle(s);
            && s'.active == (if s.run == [] then s.daemon else s.run[0])
            && s'.run == (if s.run == [] then [] else s.run[1..])
            && a in s'.th && s'.th[a].kind == Normal && s'.th[a].subs == [] && s'.th[a].parent.None?
            && !s'.th[a].notified && s'.th[a].wakeup == 0
            && (if |s.idle| < s.maxFree then s'.idle == s.idle + [a] && a !in s'.reclaim
                else s'.idle == s.idle && s'.reclaim == [a])
  {
    hide Inv, Shelve, Yield;
    var a := s.active;
    ShelveKeeps(s);
    var s1 := Shelve(s, a);
    YieldExact(s1);
    At(s1, a);
    At(s, a);
    assert a in s1.th && a !in s1.run;
    assert a in Yield(s1).th;
  }

  // ---------- deadlines ----------

  /** How long a call waits: st_sleep as long as it says, the others for ever, that is 2^31 - 1 ms, when the
      time is negative. */
  ghost function Duration<T>(e: Event<T>): int
    requires e.Sleep? || e.NotifyWait? || e.Wait? || e.Io?
  {
    if e.Sleep? || e.ms >= 0 then e.ms else 0x7fff_ffff
  }

  /** A call that parks puts its coroutine, and nobody else, in the sleep heap with the deadline. */
  lemma ParksUntil<T>(y: Sys<T>, e: Event<T>)
    requires SysInv(y) && Enabled(y, e) && (e.Sleep? || e.NotifyWait? || e.Wait? || e.Io?)
    requires SchedTheorems.Switches(y, e)
    ensures forall n :: n in Step(y, e).0.s.heap <==> n in y.s.heap || n == Node(y.s.active, e.now + Duration(e))
  {
    hide Inv, ParksOk, FallAsleep, WaitForIo, Yield;
    CanSleep(y, e);
    var deadline := e.now + Duration(e);
    if e.Sleep? || e.NotifyWait? {
      FallAsleepExact(y.s, deadline);
      YieldExact(FallAsleep(y.s, deadline));
    } else {
      WaitForIoExact(y.s, deadline);
      YieldExact(WaitForIo(y.s, deadline));
    }
  }

  lemma CanSleep<T>(y: Sys<T>, e: Event<T>)
    requires SysInv(y) && Enabled(y, e) && (e.Sleep? || e.NotifyWait? || e.Wait? || e.Io?)
    ensures Quiet(y.s) && y.s.active != y.s.daemon && |y.s.heap| < y.s.cap
  {
  }

  /** A call that does not park moves nobody: with a notification it takes the bit; when the item could not be
      added it leaves the deadline behind; and st_notify_wait without time changes nothing. */
  lemma ReturnsAtOnce<T>(y: Sys<T>, e: Event<T>)
    requires SysInv(y) && Enabled(y, e) && (e.NotifyWait? || e.Wait? || e.Io?)
    ensures var a := y.s.active; var s' := Step(y, e).0.s;
            && a in y.s.th
            && var r := y.s.th[a];
               var taken := y.s.(th := y.s.th[a := r.(notified := false)]);
               var late := y.s.(th := y.s.th[a := r.(wakeup := e.now + Duration(e))]);
               match e
               case NotifyWait(ms, _) => if r.notified then s' == taken else ms == 0 ==> s' == y.s
               case Wait(_, _, added, _) => if r.notified then s' == taken else !added ==> s' == late
               case Io(_, _, added) => !added ==> s' == late
  {
    hide Inv, ParksOk, FallAsleep, WaitForIo, Yield;
    CanSleep(y, e);
  }

  /** A coroutine that comes back from a wait takes its notification; nobody moves. */
  lemma ComesBack<T>(y: Sys<T>, events: bool)
    requires SysInv(y) && Enabled(y, Resume(events))
    ensures var a := y.s.active; var y' := Step(y, Resume(events)).0;
            && a in y.s.th && y'.park == y.park[a := Running]
            && y'.s == (if y.park[a] == AtNotifyWait || y.park[a] == AtWait
                        then y.s.(th := y.s.th[a := y.s.th[a].(notified := false)]) else y.s)
  {
    hide ParksOk;
    At(y.s, y.s.active);
  }

  /** Out of the run queue, and nothing else changes. */
  lemma RemoveRunableExact<T>(s: Sched<T>, t: T)
    requires Inv(s) && t in s.th && s.th[t].link == InRun
    ensures t in s.run
    ensures RemoveRunable(s, t)
         == s.(run := Drop(s.run, t), th := s.th[t := s.th[t].(runFlag := false, link := Unlinked)])
    ensures Inv(RemoveRunable(s, t))
  {
    hide IsHeap, TreeInv;
    assert Placed(s, t);
    SetTwice(s.th, t, s.th[t].(runFlag := false), s.th[t].(runFlag := false, link := Unlinked));
    var s1 := s.(run := Drop(s.run, t), th := s.th[t := s.th[t].(runFlag := false, link := Unlinked)]);
    DropKeepsTheRest(s.run, t);
    forall x | x in s1.th
      ensures Placed(s1, x)
    {
      assert Placed(s, x);
    }
    MoveKeeps(s, s1, t);
  }

  /** A turn takes a sleeper out of the heap exactly when its deadline has come, or when it waited for a
      descriptor and is among the owners of the events; then it is queued or switched to. */
  lemma TurnWakesDue<T>(y: Sys<T>, owners: seq<T>, now: int, n: Node<T>)
    requires SysInv(y) && Enabled(y, Turn(owners, now)) && n in y.s.heap
    ensures var s' := Step(y, Turn(owners, now)).0.s;
            && (n !in s'.heap <==> n.key <= now || (n.item in owners && n.item in y.s.io))
            && (n !in s'.heap ==> n.item == s'.active || n.item in s'.run)
  {
    hide Inv, ParksOk, WakeOwners, Wakeup, Yield, IsDue;
    TurnReady(y.s, owners, now);
    var woken := WakeOwnersExact(y.s, owners);
    var s1 := WakeOwners(y.s, owners);
    var due := WakeupExact(s1, now);
    var s2 := Wakeup(s1, now);
    YieldExact(s2);
    InQueue(s2.run, n.item);
    OneNode(y.s, n);
    if n in s1.heap {
      DueIs(s1, now, due, n);
    }
  }

  lemma OneNode<T>(s: Sched<T>, n: Node<T>)
    requires Inv(s) && n in s.heap
    ensures n.item in s.th && n.key == s.th[n.item].wakeup && s.th[n.item].sleepFlag
  {
    At(s, n.item);
    var i :| 0 <= i < |s.heap| && s.heap[i] == n;
    assert HasItem(s.heap, n.item);
  }

  lemma DueIs<T>(s: Sched<T>, now: int, due: seq<T>, n: Node<T>)
    requires Inv(s) && n in s.heap && IsDue(s, now, due)
    ensures n.item in due <==> n.key <= now
  {
    OneNode(s, n);
  }
}
