/** What holds in every run of the scheduler. */
module SchedTheorems {
  import opened HeapModel
  import opened Queues
  import opened SchedModel
  import opened SchedInvariant
  import opened SchedOps
  import opened SchedLifecycle
  import opened SchedRuns

  /** A coroutine sits on at most one queue, and on it once. */
  ghost predicate Disjoint<T>(a: seq<T>, b: seq<T>)
  {
    forall t :: t in a ==> t !in b
  }

  /** In every state a run can reach: the four queues are duplicate-free and pairwise disjoint; each
      flag is set exactly for the members of its queue and of the heap; IO waiters are in the heap and
      runnable, pended and reclaimed coroutines are not; the active coroutine and the daemon are
      nowhere; and every other coroutine is where its last call left it or queued to run. */
  lemma EveryReachableState<T>(y0: Sys<T>, es: seq<Event<T>>)
    requires Initial(y0)
    ensures SysInv(y0)
    ensures ValidRun(y0, es) ==>
              var y := Final(y0, es);
              var s := y.s;
              && NoDup(s.run) && NoDup(s.io) && NoDup(s.pend) && NoDup(s.reclaim)
              && Disjoint(s.run, s.io) && Disjoint(s.run, s.pend) && Disjoint(s.run, s.reclaim)
              && Disjoint(s.io, s.pend) && Disjoint(s.io, s.reclaim) && Disjoint(s.pend, s.reclaim)
              && IsHeap(s.heap) && Distinct(s.heap)
              && (forall t :: t in s.th ==>
                   && (s.th[t].runFlag <==> t in s.run)
                   && (s.th[t].ioFlag <==> t in s.io)
                   && (s.th[t].pendFlag <==> t in s.pend)
                   && (s.th[t].sleepFlag <==> HasItem(s.heap, t))
                   && (t in s.io ==> HasItem(s.heap, t))
                   && (t in s.run || t in s.pend || t in s.reclaim ==> !HasItem(s.heap, t))
                   && (t == s.active || t == s.daemon ==>
                        t !in s.run && t !in s.io && t !in s.pend && t !in s.reclaim && !HasItem(s.heap, t))
                   && t in y.park && ParkOk(s, t, y.park[t]))
  {
    InitialOk(y0);
    if ValidRun(y0, es) {
      var y := Final(y0, es);
      forall t | t in y.s.th
        ensures Placed(y.s, t) && ParkOk(y.s, t, y.park[t])
      {
        assert Placed(y.s, t);
      }
    }
  }

  // ---------- splitting runs ----------

  /** A run followed by a run is a run. */
  lemma {:induction false} RunAppend<T>(y: Sys<T>, es: seq<Event<T>>, fs: seq<Event<T>>)
    requires SysInv(y) && ValidRun(y, es) && ValidRun(Final(y, es), fs)
    ensures ValidRun(y, es + fs) && Final(y, es + fs) == Final(Final(y, es), fs)
    decreases |es|
  {
    hide SysInv, Enabled, Step;
    if es == [] {
      assert es + fs == fs;
    } else {
      StepKeeps(y, es[0]);
      RunAppend(Step(y, es[0]).0, es[1..], fs);
      assert (es + fs)[0] == es[0] && (es + fs)[1..] == es[1..] + fs;
    }
  }

  /** A prefix of a run is a run, and the rest is a run from where it ends. */
  lemma {:induction false} RunSplit<T>(y: Sys<T>, es: seq<Event<T>>, k: nat)
    requires SysInv(y) && ValidRun(y, es) && k <= |es|
    ensures ValidRun(y, es[..k]) && ValidRun(Final(y, es[..k]), es[k..])
    ensures Final(y, es) == Final(Final(y, es[..k]), es[k..])
    decreases |es|
  {
    hide SysInv, Enabled, Step;
    if k == 0 {
      assert es[..k] == [] && es[k..] == es;
    } else {
      StepKeeps(y, es[0]);
      RunSplit(Step(y, es[0]).0, es[1..], k - 1);
      assert es[..k][0] == es[0] && es[..k][1..] == es[1..][..k - 1] && es[k..] == es[1..][k - 1..];
    }
  }

  // ---------- deletion and the pool ----------

  /** The pool members: every coroutine but the daemon and the primordial one. */
  ghost function Members<T>(s: Sched<T>): set<T>
  {
    s.th.Keys - {s.daemon, s.primo}
  }

  ghost function AsSet<T>(q: seq<T>): set<T>
  {
    set t | t in q
  }

  lemma {:induction false} NoDupSize<T>(q: seq<T>)
    requires NoDup(q)
    ensures |AsSet(q)| == |q|
  {
    if q != [] {
      NoDupSize(q[1..]);
      assert q == [q[0]] + q[1..];
      assert AsSet(q) == AsSet(q[1..]) + {q[0]};
      assert q[0] !in AsSet(q[1..]);
    }
  }

  /** In every reachable state the pool's total is idle plus reclaimed plus in use, the idle ones are
      within the limit, and at most one coroutine is waiting to be deleted. */
  lemma PoolConserved<T>(y0: Sys<T>, es: seq<Event<T>>)
    requires SysInv(y0) && ValidRun(y0, es)
    ensures var s := Final(y0, es).s;
            var inUse := set t | t in Members(s) && InUse(s, t);
            && s.total == |s.idle| + |s.reclaim| + |inUse|
            && |s.idle| <= s.maxFree && |s.reclaim| <= 1
  {
    PoolParts(Final(y0, es).s);
  }

  lemma PoolParts<T>(s: Sched<T>)
    requires Inv(s)
    ensures s.total == |s.idle| + |s.reclaim| + |set t | t in Members(s) && InUse(s, t)|
    ensures |s.idle| <= s.maxFree
  {
    var inUse := set t | t in Members(s) && InUse(s, t);
    assert s.total == |Members(s)| && NoDup(s.idle) && NoDup(s.reclaim);
    NoDupSize(s.idle);
    NoDupSize(s.reclaim);
    PoolPlaces(s);
    hide Inv, InUse, NoDup;
    assert Members(s) == AsSet(s.idle) + AsSet(s.reclaim) + inUse;
    ThreeParts(AsSet(s.idle), AsSet(s.reclaim), inUse);
  }

  lemma ThreeParts<T>(a: set<T>, b: set<T>, c: set<T>)
    requires a !! b && a !! c && b !! c
    ensures |a + b + c| == |a| + |b| + |c|
  {
    assert |a + b| == |a| + |b|;
  }

  /** A pool member is in exactly one place. */
  lemma PoolPlaces<T>(s: Sched<T>)
    requires Inv(s)
    ensures forall t :: t in s.idle ==> t in Members(s) && t !in s.reclaim && !InUse(s, t)
    ensures forall t :: t in s.reclaim ==> t in Members(s) && t !in s.idle && !InUse(s, t)
    ensures forall t :: t in Members(s) ==> t in s.idle || t in s.reclaim || InUse(s, t)
  {
    forall t | t in Members(s)
      ensures t in s.idle || t in s.reclaim || InUse(s, t)
    {
      At(s, t);
    }
    forall t | t in s.reclaim
      ensures t in Members(s) && t !in s.idle && !InUse(s, t)
    {
      ReclaimedFacts(s, t);
    }
  }

  // ---------- the shape of a step ----------

  /** The steps that end in a switch. */
  ghost predicate Switches<T>(y: Sys<T>, e: Event<T>)
    requires SysInv(y)
  {
    match e
    case Sleep(_, _) => true
    case NotifyWait(ms, _) => !y.s.th[y.s.active].notified && ms != 0
    case Wait(_, _, added, _) => !y.s.th[y.s.active].notified && added
    case Io(_, _, added) => added
    case Pend => true
    case Finish => true
    case Turn(_, _) => true
    case _ => false
  }

  /** The deadline the active coroutine goes to sleep with, in the steps that put it in the heap. */
  ghost function DeadlineOf<T>(e: Event<T>): Option<int>
  {
    match e
    case Sleep(ms, now) => Some(now + ms)
    case NotifyWait(ms, now) => Some(now + Normalize(ms))
    case Wait(ms, now, _, _) => Some(now + Normalize(ms))
    case Io(ms, now, _) => Some(now + Normalize(ms))
    case _ => None
  }

  /** The steps that leave t without a notification: its own waits, and its end. */
  ghost predicate Clears<T>(y: Sys<T>, e: Event<T>, t: T)
  {
    && t == y.s.active
    && (e.NotifyWait? || e.Wait? || e.Finish?
        || (e.Resume? && t in y.park && (y.park[t] == AtNotifyWait || y.park[t] == AtWait)))
  }

  ghost predicate NoticeAfter<T>(y: Sys<T>, e: Event<T>, t: T)
  {
    if e == Event.Notify(t) then true
    else if Clears(y, e, t) then false
    else t in y.s.th && y.s.th[t].notified
  }

  ghost predicate MayBeInHeap<T>(y: Sys<T>, e: Event<T>, n: Node<T>)
    requires SysInv(y)
  {
    || n in y.s.heap
    || (Switches(y, e) && DeadlineOf(e).Some? && n == Node(y.s.active, DeadlineOf(e).value))
  }

  /** A step appends `added` to the run queue and, when it switches, takes its head; it deletes only
      reclaimed coroutines; it sets and clears sticky bits as NoticeAfter says; and only the active
      coroutine can enter the heap, with the deadline of the call. */
  ghost predicate Shape<T>(y: Sys<T>, e: Event<T>, y': Sys<T>, added: seq<T>)
    requires SysInv(y)
  {
    var q := y.s.run + added;
    && (if Switches(y, e)
        then && y'.s.run == (if q == [] then [] else q[1..])
             && y'.s.active == (if q == [] then y.s.daemon else q[0])
        else y'.s.run == q && y'.s.active == y.s.active)
    && (forall t :: t in y.s.th && t !in y'.s.th ==> t in y.s.reclaim && t != y.s.active)
    && (forall t :: t in y'.s.th ==> (y'.s.th[t].notified <==> NoticeAfter(y, e, t)))
    && (forall n :: n in y'.s.heap ==> MayBeInHeap(y, e, n))
  }

  /** Shape of a step that switches from s2, which differs from y.s in the active coroutine only. */
  lemma SwitchShape<T>(y: Sys<T>, e: Event<T>, s2: Sched<T>, y': Sys<T>, added: seq<T>)
    requires SysInv(y) && Switches(y, e) && Switched(s2, y'.s)
    requires s2.active == y.s.active && s2.daemon == y.s.daemon && s2.run == y.s.run + added
    requires s2.th.Keys == y.s.th.Keys
    requires forall t :: t in s2.reclaim ==> t in y.s.reclaim || t == y.s.active
    requires forall t :: t in s2.th ==> (s2.th[t].notified <==> NoticeAfter(y, e, t))
    requires forall n :: n in s2.heap ==> MayBeInHeap(y, e, n)
    ensures Shape(y, e, y', added)
  {
    hide SysInv;
    forall t | t in y'.s.th
      ensures y'.s.th[t].notified <==> NoticeAfter(y, e, t)
    {
      assert t in s2.th && y'.s.th[t].notified == s2.th[t].notified;
    }
    forall t | t in y.s.th && t !in y'.s.th
      ensures t in y.s.reclaim && t != y.s.active
    {
      assert t in s2.th;
    }
  }

  lemma SleepShape<T>(y: Sys<T>, e: Event<T>, deadline: int, p: Park, now: int)
    requires SysInv(y) && InClient(y) && |y.s.heap| < y.s.cap && now >= y.clock
    requires Switches(y, e) && DeadlineOf(e) == Some(deadline) && (e.Sleep? || e.NotifyWait?)
    ensures Inv(FallAsleep(y.s, deadline))
    ensures Shape(y, e, Switch(y, FallAsleep(y.s, deadline), p, now), [])
  {
    hide Inv, ParksOk;
    FallAsleepExact(y.s, deadline);
    var s2 := FallAsleep(y.s, deadline);
    YieldExact(s2);
    assert y.s.run + [] == y.s.run;
    SwitchShape(y, e, s2, Switch(y, s2, p, now), []);
  }

  lemma IoShape<T>(y: Sys<T>, e: Event<T>, deadline: int, p: Park, now: int)
    requires SysInv(y) && InClient(y) && |y.s.heap| < y.s.cap && now >= y.clock
    requires Switches(y, e) && DeadlineOf(e) == Some(deadline) && (e.Wait? || e.Io?)
    ensures Inv(WaitForIo(y.s, deadline))
    ensures Shape(y, e, Switch(y, WaitForIo(y.s, deadline), p, now), [])
  {
    hide Inv, ParksOk;
    WaitForIoExact(y.s, deadline);
    var s2 := WaitForIo(y.s, deadline);
    YieldExact(s2);
    assert y.s.run + [] == y.s.run;
    SwitchShape(y, e, s2, Switch(y, s2, p, now), []);
  }

  lemma PendExact<T>(s: Sched<T>, t: T)
    requires t in s.th && s.th[t].link == Unlinked
    ensures InsertPend(s, t)
         == s.(pend := s.pend + [t], th := s.th[t := s.th[t].(pendFlag := true, link := InPend)])
  {
    SetTwice(s.th, t, s.th[t].(pendFlag := true), s.th[t].(pendFlag := true, link := InPend));
  }

  lemma PendShape<T>(y: Sys<T>)
    requires SysInv(y) && InClient(y)
    ensures Shape(y, Event.Pend, DoPend(y), [])
  {
    hide Inv, ParksOk, InsertPend;
    InsertPendKeeps(y.s, y.s.active);
    PendExact(y.s, y.s.active);
    var s2 := InsertPend(y.s, y.s.active);
    YieldExact(s2);
    assert y.s.run + [] == y.s.run;
    assert DoPend(y) == Switch(y, s2, AtPend, y.clock);
    SwitchShape(y, Event.Pend, s2, DoPend(y), []);
  }

  /** Shape of a step that changes no queue. */
  lemma StillShape<T>(y: Sys<T>, e: Event<T>, y': Sys<T>)
    requires SysInv(y) && !Switches(y, e)
    requires y'.s == y.s.(th := y'.s.th) && y'.s.th.Keys == y.s.th.Keys
    requires forall t :: t in y'.s.th ==> (y'.s.th[t].notified <==> NoticeAfter(y, e, t))
    ensures Shape(y, e, y', [])
  {
    hide SysInv;
    assert y.s.run + [] == y.s.run;
  }

  lemma EntryShape<T>(y: Sys<T>, e: Event<T>, now: int)
    requires SysInv(y) && y.s.active in y.s.th && (e.NotifyWait? || e.Wait?) && !Switches(y, e)
    ensures y.s.th[y.s.active].notified ==> Shape(y, e, Take(y, y.s.active).(clock := now), [])
    ensures !y.s.th[y.s.active].notified ==> Shape(y, e, y.(clock := now), [])
    ensures !y.s.th[y.s.active].notified ==>
              forall dl :: Shape(y, e, y.(s := SetWakeup(y.s, y.s.active, dl), clock := now), [])
  {
    hide Inv, ParksOk, Shape;
    var a := y.s.active;
    if y.s.th[a].notified {
      StillShape(y, e, Take(y, a).(clock := now));
    } else {
      StillShape(y, e, y.(clock := now));
      forall dl
        ensures Shape(y, e, y.(s := SetWakeup(y.s, a, dl), clock := now), [])
      {
        StillShape(y, e, y.(s := SetWakeup(y.s, a, dl), clock := now));
      }
    }
  }

  lemma NotifyShape<T>(y: Sys<T>, t: T) returns (added: seq<T>)
    requires SysInv(y) && t in y.s.th
    ensures NotifyReady(y.s, t)
    ensures Shape(y, Event.Notify(t), y.(s := SchedModel.Notify(y.s, t)), added)
  {
    hide Inv, ParksOk, SchedModel.Notify;
    NotifyExact(y.s, t);
    added := if y.s.th[t].sleepFlag then [t] else [];
    assert y.s.run + [] == y.s.run;
  }

  lemma UnpendShape<T>(y: Sys<T>, t: T)
    requires SysInv(y) && t in y.s.th && y.s.th[t].link == InPend
    ensures Shape(y, Event.Unpend(t), y.(s := SchedModel.Unpend(y.s, t)), [t])
  {
    hide Inv, ParksOk;
    UnpendExact(y.s, t);
  }

  lemma StartShape<T>(y: Sys<T>, t: T)
    requires SysInv(y) && Loose(y.s, t) && t != y.s.active
    ensures Shape(y, Start(t), y.(s := InsertRunable(y.s, t)), [t])
  {
    hide Inv, ParksOk;
    InsertRunableKeeps(y.s, t);
  }

  lemma TreeShape<T>(y: Sys<T>, p: T, c: T)
    requires SysInv(y) && p in y.s.th && c in y.s.th
    ensures Shape(y, Event.AddSub(p, c), y.(s := SchedLifecycle.AddSub(y.s, p, c)), [])
  {
    hide Inv, ParksOk, Shape, Relink;
    var s1 := SchedLifecycle.AddSub(y.s, p, c);
    if !y.s.th[c].subFlag {
      RelinkMoves(y.s, p, y.s.th[p].subs + [c], c, Some(p));
    }
    assert TreeMoves(y.s, s1);
    forall t | t in s1.th
      ensures s1.th[t].notified == y.s.th[t].notified
    {
      assert s1.th[t] == y.s.th[t].(parent := s1.th[t].parent, subs := s1.th[t].subs, subFlag := s1.th[t].subFlag);
    }
    StillShape(y, Event.AddSub(p, c), y.(s := s1));
  }

  lemma MakeSubShape<T>(y: Sys<T>, c: T)
    requires SysInv(y) && c in y.s.th
    ensures Shape(y, MakeSub(c), y.(s := SetRec(y.s, c, y.s.th[c].(kind := SubThread))), [])
  {
    hide Inv, ParksOk, Shape;
    StillShape(y, MakeSub(c), y.(s := SetRec(y.s, c, y.s.th[c].(kind := SubThread))));
  }

  lemma ResumeShape<T>(y: Sys<T>, events: bool)
    requires SysInv(y) && Enabled(y, Resume(events))
    ensures Shape(y, Resume(events), DoResume(y, events).0, [])
  {
    hide Inv, ParksOk, Shape;
    StillShape(y, Resume(events), DoResume(y, events).0);
  }

  lemma CreateShape<T>(y: Sys<T>, newcomer: T, runable: bool) returns (added: seq<T>)
    requires SysInv(y) && Enabled(y, Event.Create(newcomer, runable))
    ensures Shape(y, Event.Create(newcomer, runable), DoCreate(y, newcomer, runable), added)
  {
    hide Inv, ParksOk;
    AllocKeeps(y.s, newcomer);
    var (s1, t) := Alloc(y.s, newcomer);
    added := if runable then [t] else [];
    assert y.s.run + [] == y.s.run;
    if runable {
      InsertRunableKeeps(s1, t);
    }
  }

  /** WakeupParent queues at most the parent and touches no heap entry and no sticky bit. */
  lemma WakeupParentShape<T>(s: Sched<T>, t: T) returns (added: seq<T>)
    requires Quiet(s) && t == s.active && ParentReady(s, t)
    ensures var s' := WakeupParent(s, t);
            && s'.run == s.run + added && s'.heap == s.heap && s'.reclaim == s.reclaim
            && s'.active == t && s'.daemon == s.daemon && s'.th.Keys == s.th.Keys
            && (forall x :: x in s.th ==> s'.th[x].notified == s.th[x].notified)
  {
    hide Inv;
    if s.th[t].parent.None? {
      added := [];
      assert s.run + [] == s.run;
    } else {
      var p := s.th[t].parent.value;
      RemoveSubKeeps(s, p, t);
      RelinkMoves(s, p, Drop(s.th[p].subs, t), t, None);
      var s1 := RemoveSub(s, p, t);
      assert TreeMoves(s, s1);
      forall x | x in s.th
        ensures s1.th[x].notified == s.th[x].notified && s1.th[x].link == s.th[x].link
      {
        assert s1.th[x] == s.th[x].(parent := s1.th[x].parent, subs := s1.th[x].subs, subFlag := s1.th[x].subFlag);
      }
      if s1.th[p].subs == [] {
        UnpendExact(s1, p);
        added := [p];
      } else {
        added := [];
        assert s.run + [] == s.run;
      }
    }
  }

  lemma ShelveNotices<T>(s: Sched<T>)
    requires Recyclable(s)
    ensures LinksMatch(s, s.active)
    ensures forall t :: t in s.th ==>
              && t in Shelve(s, s.active).th
              && (Shelve(s, s.active).th[t].notified <==> t != s.active && s.th[t].notified)
  {
    hide Inv;
    ShelveKeeps(s);
    DetachActive(s);
    DetachPlaces(s);
    ResetKeeps(Detach(s, s.active));
  }

  lemma FinishShape<T>(y: Sys<T>) returns (added: seq<T>)
    requires SysInv(y) && Enabled(y, Finish)
    ensures Shape(y, Finish, DoFinish(y), added)
  {
    hide Inv, ParksOk, Shelve, WakeupParent;
    var a := y.s.active;
    FinishReady(y);
    var s1 := if y.s.th[a].kind == SubThread then WakeupParent(y.s, a) else y.s;
    if y.s.th[a].kind == SubThread {
      added := WakeupParentShape(y.s, a);
    } else {
      added := [];
      assert y.s.run + [] == y.s.run;
    }
    ShelveKeeps(s1);
    ShelveNotices(s1);
    var s2 := Shelve(s1, a);
    YieldExact(s2);
    SwitchShape(y, Finish, s2, DoFinish(y), added);
  }

  /** Waking changes no sticky bit and adds nothing to the heap. */
  lemma MovedNotices<T>(s: Sched<T>, s': Sched<T>, woken: seq<T>)
    requires MovedToRun(s, s', woken)
    ensures s'.active == s.active && s'.daemon == s.daemon && s'.reclaim == s.reclaim
    ensures s'.th.Keys == s.th.Keys && s'.run == s.run + woken
    ensures forall t :: t in s'.th ==> s'.th[t].notified == s.th[t].notified
    ensures forall n :: n in s'.heap ==> n in s.heap
  {
    forall t | t in s'.th
      ensures s'.th[t].notified == s.th[t].notified
    {
      assert t in s.th;
    }
  }

  lemma TurnShape<T>(y: Sys<T>, owners: seq<T>, now: int) returns (added: seq<T>)
    requires SysInv(y) && Enabled(y, Turn(owners, now))
    ensures Shape(y, Turn(owners, now), DoTurn(y, owners, now), added)
  {
    hide Inv, ParksOk, WakeOwners, Wakeup, MovedToRun, IsDue;
    TurnReady(y.s, owners, now);
    var woken := WakeOwnersExact(y.s, owners);
    var s1 := WakeOwners(y.s, owners);
    MovedNotices(y.s, s1, woken);
    var due := WakeupExact(s1, now);
    var s2 := Wakeup(s1, now);
    MovedNotices(s1, s2, due);
    added := woken + due;
    assert y.s.run + added == y.s.run + woken + due;
    YieldExact(s2);
    SwitchShape(y, Turn(owners, now), s2, DoTurn(y, owners, now), added);
  }

  lemma StepShape<T>(y: Sys<T>, e: Event<T>) returns (added: seq<T>)
    requires SysInv(y) && Enabled(y, e)
    ensures Shape(y, e, Step(y, e).0, added)
  {
    hide Inv, ParksOk, Shape, DoFinish, DoTurn, DoCreate, DoPend, DoResume, Switch, FallAsleep, WaitForIo;
    added := [];
    match e
    case Sleep(ms, now) => SleepShape(y, e, now + ms, AtSleep, now);
    case NotifyWait(ms, now) =>
      if Switches(y, e) {
        SleepShape(y, e, now + Normalize(ms), AtNotifyWait, now);
      } else {
        EntryShape(y, e, now);
      }
    case Wait(ms, now, added', fdReady) =>
      if Switches(y, e) {
        IoShape(y, e, now + Normalize(ms), AtWait, now);
      } else {
        EntryShape(y, e, now);
      }
    case Io(ms, now, added') =>
      if added' {
        IoShape(y, e, now + Normalize(ms), AtIo, now);
      } else {
        IoFailShape(y, ms, now);
      }
    case Resume(events) => ResumeShape(y, events);
    case Notify(t) => added := NotifyShape(y, t);
    case Pend => PendShape(y);
    case Unpend(t) => UnpendShape(y, t); added := [t];
    case Create(t, runable) => added := CreateShape(y, t, runable);
    case Start(t) => StartShape(y, t); added := [t];
    case AddSub(p, c) => TreeShape(y, p, c);
    case MakeSub(c) => MakeSubShape(y, c);
    case Finish => added := FinishShape(y);
    case Turn(owners, now) => added := TurnShape(y, owners, now);
  }

  lemma IoFailShape<T>(y: Sys<T>, ms: int, now: int)
    requires SysInv(y) && InClient(y) && |y.s.heap| < y.s.cap
    ensures Shape(y, Io(ms, now, false), TryIo(y, ms, now, false, AtIo), [])
  {
    hide Inv, ParksOk, Shape;
    StillShape(y, Io(ms, now, false), TryIo(y, ms, now, false, AtIo));
  }

  // ---------- deletion ----------

  /** Only a coroutine waiting on the reclaim queue is ever deleted: never the active one, before or
      after the step, and never one that is on the run, io or pend queue, asleep, or idle. */
  lemma OnlyReclaimedAreDeleted<T>(y: Sys<T>, e: Event<T>, t: T)
    requires SysInv(y) && Enabled(y, e)
    requires t in y.s.th && t !in Step(y, e).0.s.th
    ensures t in y.s.reclaim
    ensures t !in y.s.run && t !in y.s.io && t !in y.s.pend && t !in y.s.idle && !HasItem(y.s.heap, t)
    ensures t != y.s.active && t != Step(y, e).0.s.active && t != y.s.daemon && t != y.s.primo
  {
    var added := StepShape(y, e);
    StepKeeps(y, e);
    At(y.s, t);
    ReclaimedFacts(y.s, t);
  }

  // ---------- fairness ----------

  /** A queued coroutine moves up by one at each switch, keeps its place at every other step, and is
      active after the switch that finds it first. */
  lemma QueuedMovesUp<T>(y: Sys<T>, e: Event<T>, i: nat)
    requires SysInv(y) && Enabled(y, e) && i < |y.s.run|
    ensures var s' := Step(y, e).0.s;
            if !Switches(y, e) then i < |s'.run| && s'.run[i] == y.s.run[i]
            else if i == 0 then s'.active == y.s.run[0]
            else i - 1 < |s'.run| && s'.run[i - 1] == y.s.run[i]
  {
    var added := StepShape(y, e);
    hide SysInv, Step, Switches;
    assert (y.s.run + added)[i] == y.s.run[i];
  }

  /** The number of switches in a run. */
  ghost function SwitchCount<T>(y: Sys<T>, es: seq<Event<T>>): nat
    requires SysInv(y) && ValidRun(y, es)
    decreases |es|
  {
    if es == [] then 0
    else
      StepKeeps(y, es[0]);
      (if Switches(y, es[0]) then 1 else 0) + SwitchCount(Step(y, es[0]).0, es[1..])
  }

  /** In any run with more than i switches, the coroutine queued at place i gets to be active. */
  lemma {:induction false} QueuedGetsToRun<T>(y: Sys<T>, es: seq<Event<T>>, i: nat) returns (k: nat)
    requires SysInv(y) && ValidRun(y, es) && i < |y.s.run| && SwitchCount(y, es) > i
    ensures k <= |es| && ValidRun(y, es[..k]) && Final(y, es[..k]).s.active == y.s.run[i]
    decreases |es|
  {
    hide SysInv, Enabled, Step, Switches;
    StepKeeps(y, es[0]);
    QueuedMovesUp(y, es[0], i);
    var y1 := Step(y, es[0]).0;
    var j: nat := 0;
    if Switches(y, es[0]) && i == 0 {
      k := 1;
      assert es[..1][1..] == [];
    } else {
      j := QueuedGetsToRun(y1, es[1..], if Switches(y, es[0]) then i - 1 else i);
      k := j + 1;
      assert es[..k][0] == es[0] && es[..k][1..] == es[1..][..j];
    }
  }

  // ---------- notifications ----------

  /** In a run from y0: t has been notified since it was created, last reported a notification in one
      of its waits, or ended. Repeated notifications merge. */
  ghost predicate Pending<T>(y0: Sys<T>, es: seq<Event<T>>, t: T)
    requires SysInv(y0) && ValidRun(y0, es)
    decreases |es|
  {
    if es == [] then t in y0.s.th && y0.s.th[t].notified
    else
      var k := |es| - 1;
      RunSplit(y0, es, k);
      var y := Final(y0, es[..k]);
      if es[k] == Event.Notify(t) then true
      else if Clears(y, es[k], t) || t !in y.s.th then false
      else Pending(y0, es[..k], t)
  }

  /** The sticky bit is exactly the pending notification: none is lost and none is invented. */
  lemma {:induction false} StickyBitIsPending<T>(y0: Sys<T>, es: seq<Event<T>>, t: T)
    requires SysInv(y0) && ValidRun(y0, es) && t in Final(y0, es).s.th
    ensures Final(y0, es).s.th[t].notified <==> Pending(y0, es, t)
    decreases |es|
  {
    hide SysInv, Enabled, Step, Clears, Switches;
    if es != [] {
      var k := |es| - 1;
      RunSplit(y0, es, k);
      var y := Final(y0, es[..k]);
      assert es[k..] == [es[k]];
      assert es[k..][1..] == [];
      assert Enabled(y, es[k]) && Final(y0, es) == Step(y, es[k]).0;
      var added := StepShape(y, es[k]);
      if t in y.s.th {
        StickyBitIsPending(y0, es[..k], t);
      }
    }
  }

  /** Whenever a wait of the active coroutine returns, at once or after it was parked, it reports a
      notification if and only if one is pending, and then none is; a wait that does not return parks
      the coroutine with none pending. */
  lemma WaitsReportExactly<T>(y0: Sys<T>, es: seq<Event<T>>, e: Event<T>)
    requires SysInv(y0) && ValidRun(y0, es) && Enabled(Final(y0, es), e)
    requires var y := Final(y0, es);
             e.NotifyWait? || e.Wait?
             || (e.Resume? && (y.park[y.s.active] == AtNotifyWait || y.park[y.s.active] == AtWait))
    ensures var y := Final(y0, es);
            var t := y.s.active;
            var pending := Pending(y0, es, t);
            var o := Step(y, e).1;
            && (match e
                case NotifyWait(ms, _) =>
                  o == if pending then NotifyWaitResult(true) else if ms == 0 then NotifyWaitResult(false) else Silent
                case Wait(_, _, added, fdReady) =>
                  o == if pending then WaitResult(fdReady, true) else if added then Silent else AddFailed
                case Resume(events) =>
                  o == if y.park[t] == AtNotifyWait then NotifyWaitResult(pending) else WaitResult(events, pending)
                case _ => true)
            && ValidRun(y0, es + [e]) && !Pending(y0, es + [e], t)
  {
    var y := Final(y0, es);
    StickyBitIsPending(y0, es, y.s.active);
    NotPendingAfter(y0, es, e);
    hide SysInv, Enabled, ParksOk, Pending, ValidRun;
  }

  lemma NotPendingAfter<T>(y0: Sys<T>, es: seq<Event<T>>, e: Event<T>)
    requires SysInv(y0) && ValidRun(y0, es) && Enabled(Final(y0, es), e)
    requires Clears(Final(y0, es), e, Final(y0, es).s.active)
    ensures ValidRun(y0, es + [e]) && !Pending(y0, es + [e], Final(y0, es).s.active)
  {
    hide SysInv, Enabled, Step;
    StepKeeps(Final(y0, es), e);
    assert [e][1..] == [];
    RunAppend(y0, es, [e]);
    assert (es + [e])[..|es|] == es;
  }

  /** No coroutine parked in st_notify_wait or st_wait stays asleep with a notification pending: it is
      in the run queue, or already switched to. */
  lemma NotifiedWaiterIsQueued<T>(y0: Sys<T>, es: seq<Event<T>>, t: T)
    requires SysInv(y0) && ValidRun(y0, es)
    requires var y := Final(y0, es);
             && t in y.s.th && t in y.park && (y.park[t] == AtNotifyWait || y.park[t] == AtWait)
             && Pending(y0, es, t)
    ensures var s := Final(y0, es).s;
            && t !in s.io && !HasItem(s.heap, t)
            && (t in s.run || t == s.active)
  {
    var y := Final(y0, es);
    StickyBitIsPending(y0, es, t);
    assert ParkOk(y.s, t, y.park[t]);
    At(y.s, t);
  }
}
