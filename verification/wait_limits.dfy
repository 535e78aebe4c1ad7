/** Runs into the states where waiting for a descriptor does not do what it promises. */
module WaitLimits {
  import opened HeapModel
  import opened Queues
  import opened SchedModel
  import opened SchedInvariant
  import opened SchedOps
  import opened SchedRuns
  import SchedTheorems
  import opened WaitSched
  import opened PollModel
  import opened EventModel
  import opened EventDispatch
  import opened WaitModel
  import opened WaitTheorems

  // ---------- the scheduler with one coroutine that runs ----------

  /** The active coroutine is the only one to run or sleep. */
  ghost predicate Lone<T>(y: Sys<T>)
  {
    && SysInv(y) && InClient(y) && y.s.run == [] && y.s.io == [] && y.s.heap == [] && y.s.cap > 0
    && y.s.active in y.s.th && !y.s.th[y.s.active].notified
  }

  /** t alone waits in st_wait until the deadline, and the daemon runs. */
  ghost predicate OnlyWaits<T>(y: Sys<T>, t: T, deadline: int)
  {
    && SysInv(y) && y.s.active == y.s.daemon && y.s.run == [] && y.s.io == [t] && y.s.cap > 0 && t != y.s.daemon
    && t in y.s.th && !y.s.th[t].notified && t in y.park && y.park[t] == AtWait
    && Node(t, deadline) in y.s.heap && (forall n :: n in y.s.heap ==> n == Node(t, deadline))
  }

  /** t is back, its wait not yet returned. */
  ghost predicate ComesBack<T>(y: Sys<T>, t: T)
  {
    && SysInv(y) && y.s.active == t && y.s.run == [] && y.s.io == [] && y.s.heap == [] && y.s.cap > 0
    && t in y.s.th && !y.s.th[t].notified && t != y.s.daemon && t in y.park && y.park[t] == AtWait
  }

  lemma LoneSwitches<T>(s: Sched<T>, deadline: int)
    requires Quiet(s) && s.active != s.daemon && s.run == [] && s.io == [] && s.heap == [] && s.cap > 0
    ensures Inv(WaitForIo(s, deadline)) && WaitForIo(s, deadline).active == s.active
    ensures var s' := Yield(WaitForIo(s, deadline)); var a := s.active;
            && s'.active == s.daemon == s'.daemon && s'.run == [] && s'.io == [a] && s'.cap == s.cap
            && a in s.th && a in s'.th && s'.th[a].notified == s.th[a].notified
            && Node(a, deadline) in s'.heap && (forall n :: n in s'.heap ==> n == Node(a, deadline))
  {
    hide WaitForIo, Yield, Inv;
    At(s, s.active);
    WaitForIoExact(s, deadline);
    assert s.io + [s.active] == [s.active];
    YieldExact(WaitForIo(s, deadline));
    assert s.active in Yield(WaitForIo(s, deadline)).th;
    assert Node(s.active, deadline) in Yield(WaitForIo(s, deadline)).heap;
  }

  lemma LoneParks<T>(y: Sys<T>, ms: nat)
    requires Lone(y)
    ensures var e := Event.Wait(ms, y.clock, true, false);
            && Enabled(y, e) && OnlyWaits(Step(y, e).0, y.s.active, y.clock + ms) && Step(y, e).0.clock == y.clock
  {
    hide Inv, ParksOk, WaitForIo, Yield;
    var e := Event.Wait(ms, y.clock, true, false);
    SchedRuns.StepKeeps(y, e);
    CanPark(y);
    LoneSwitches(y.s, y.clock + ms);
  }

  /** A sequence that has t and nothing else, without duplicates. */
  lemma JustOne<T>(q: seq<T>, t: T)
    requires NoDup(q) && t in q && forall x :: x in q ==> x == t
    ensures q == [t]
  {
    SchedTheorems.NoDupSize(q);
    assert SchedTheorems.AsSet(q) == {t};
  }

  lemma FirstIn<T>(q: seq<T>)
    ensures q != [] ==> q[0] in q
  {
  }

  /** Waking by an event or by the deadline. */
  lemma OneIsWoken<T>(s: Sched<T>, owners: seq<T>, now: int, t: T, deadline: int)
    requires Quiet(s) && s.run == [] && s.io == [t] && t in s.th && (forall o :: o in owners ==> o == t)
    requires Node(t, deadline) in s.heap && (forall n :: n in s.heap ==> n == Node(t, deadline))
    requires t in owners || deadline <= now
    ensures Quiet(WakeOwners(s, owners))
    ensures var s2 := Wakeup(WakeOwners(s, owners), now);
            && Quiet(s2) && s2 == s.(run := [t], io := [], heap := [], th := s2.th) && s2.th.Keys == s.th.Keys
            && s2.th[t].notified == s.th[t].notified
  {
    hide Inv, WakeOwners, Wakeup, IsDue;
    var woken := WakeOwnersExact(s, owners);
    var s1 := WakeOwners(s, owners);
    var due := WakeupExact(s1, now);
    var s2 := Wakeup(s1, now);
    if t in owners {
      JustOne(woken, t);
      FirstIn(s1.heap);
      NoneDueOf(s1, now, due);
    } else {
      FirstIn(woken);
      OnlyDue(s1, now, due, t, deadline);
    }
    FirstIn(s2.heap);
    FirstIn(s2.io);
  }

  lemma NoneDueOf<T>(s: Sched<T>, now: int, due: seq<T>)
    requires Inv(s) && s.heap == [] && IsDue(s, now, due)
    ensures due == []
  {
    forall x | x in due
      ensures s.th[x].sleepFlag && HasItem(s.heap, x)
    {
      At(s, x);
    }
    FirstIn(due);
  }

  lemma OnlyDue<T>(s: Sched<T>, now: int, due: seq<T>, t: T, deadline: int)
    requires Inv(s) && IsDue(s, now, due) && t in s.th && deadline <= now
    requires Node(t, deadline) in s.heap && (forall n :: n in s.heap ==> n == Node(t, deadline))
    ensures due == [t]
  {
    At(s, t);
    var i :| 0 <= i < |s.heap| && s.heap[i] == Node(t, deadline);
    assert HasItem(s.heap, t);
    forall x | x in due
      ensures x == t
    {
      At(s, x);
      var k :| 0 <= k < |s.heap| && s.heap[k].item == x;
      assert s.heap[k] in s.heap;
    }
    JustOne(due, t);
  }

  lemma LoneTurn<T>(y: Sys<T>, owners: seq<T>, now: int, t: T, deadline: int)
    requires OnlyWaits(y, t, deadline) && now >= y.clock && (forall o :: o in owners ==> o == t)
    requires t in owners || deadline <= now
    ensures var e := Event.Turn(owners, now);
            && Enabled(y, e)
            && ComesBack(Step(y, e).0, t) && Step(y, e).0.clock == now
  {
    hide Inv, ParksOk, WakeOwners, Wakeup, Yield;
    SchedRuns.StepKeeps(y, Event.Turn(owners, now));
    OneIsWoken(y.s, owners, now, t, deadline);
    YieldExact(Wakeup(WakeOwners(y.s, owners), now));
  }

  // ---------- one descriptor ----------

  /** Descriptor 0 is open, and item i is in its slot. */
  ghost predicate Slot0<I, T>(v: Events<I, T>, i: I)
  {
    && |v.io.cache| > 0 && 0 in v.io.open && 0 in v.table && v.table[0] == i && i in v.items && v.items[i].fd == 0
  }

  /** One coroutine runs, and nobody waits for descriptor 0. */
  ghost predicate Ready<I, T>(j: Joint<I, T>, i: I)
  {
    JointInv(j) && Lone(j.y) && Slot0(j.v, i) && j.fdset == map[]
  }

  /** The coroutine t waits for descriptor 0 until the deadline. */
  ghost predicate AtSlot0<I, T>(j: Joint<I, T>, i: I, t: T, deadline: int)
  {
    JointInv(j) && OnlyWaits(j.y, t, deadline) && Slot0(j.v, i) && j.fdset == map[t := i] && 0 in j.v.io.reg
  }

  ghost predicate Back<I, T>(j: Joint<I, T>, i: I, t: T)
  {
    JointInv(j) && Slot0(j.v, i) && j.fdset == map[t := i] && ComesBack(j.y, t)
  }

  function Wait0<I, T>(ms: nat, now: int): Act<I, T>
  {
    Act.Wait(0, true, ms, now, false, false)
  }

  lemma WaitParks<I, T>(j: Joint<I, T>, i: I, ms: nat)
    requires Ready(j, i)
    ensures CanAct(j, Wait0(ms, j.y.clock)) && Tidy(j, Wait0(ms, j.y.clock))
    ensures var j' := Do(j, Wait0(ms, j.y.clock));
            && AtSlot0(j', i, j.y.s.active, j.y.clock + ms) && j'.y.clock == j.y.clock
            && j'.v.items[i].revents == j.v.items[i].revents
  {
    hide Inv, ParksOk, Step, Armed;
    var a: Act<I, T> := Wait0(ms, j.y.clock);
    LoneParks(j.y, ms);
    WaitReady(j, a, true);
    BeginKeeps(j, i, true, false);
    AddOpens(j, i);
    DoKeeps(j, a);
  }

  /** The descriptor is open and the kernel does not refuse. */
  lemma AddOpens<I, T>(j: Joint<I, T>, i: I)
    requires TableOk(j.v, j.fdset) && Slot0(j.v, i) && !Linked(j, i) && TableInv(j.v)
    ensures var (v', fdset', ok) := Begin(j, i, true, false); ok && 0 in v'.io.reg && v'.io.open == j.v.io.open
  {
    var v1 := Watching(j.v, i, Direction(j.v.items[i].events, true), j.y.s.active);
    WatchingKeeps(j.v, i, Direction(j.v.items[i].events, true), j.y.s.active);
    EpollRefines(v1.io, 0, v1.items[i].events, false);
    AddHolding(v1, i, false);
  }

  /** A turn with at most one event, readable, for descriptor 0. */
  ghost predicate OneEvent(fs: seq<Fired>)
  {
    fs == [] || fs == [Fired(0, Mask(true, false, false), 0, 0)]
  }

  lemma OwnersAre<I, T>(j: Joint<I, T>, i: I, t: T, deadline: int, fs: seq<Fired>)
    requires AtSlot0(j, i, t, deadline) && OneEvent(fs)
    ensures FiredOk(j.v, fs) && TableInv(j.v)
    ensures forall o :: o in AllReported(j.v, fs) ==> o == t
    ensures fs != [] ==> t in AllReported(j.v, fs)
  {
    hide Inv, ParksOk, Armed, AllReported, Waiters;
    TheItem(j, t);
    OwnersWait(j, fs);
    if fs != [] {
      FirstIsReported(j, fs, t, 0);
    }
  }

  lemma TurnTable<I, T>(j: Joint<I, T>, i: I, t: T, deadline: int, fs: seq<Fired>)
    requires AtSlot0(j, i, t, deadline) && OneEvent(fs)
    ensures Slot0(Settle(j.v, fs), i) && Holds(j.v, i) && (Fires(fs, 0) <==> fs != [])
    ensures Settle(j.v, fs).items[i].revents != NONE <==> j.v.items[i].revents != NONE || fs != []
  {
    hide Inv, ParksOk, Armed, Waiters, Settle;
    SettleKeeps(j.v, j.fdset, fs);
    SettleSlot0(j.v, j.fdset, fs, i);
    assert fs != [] ==> fs[0].fd == 0;
  }

  lemma TurnBack<I, T>(j: Joint<I, T>, i: I, t: T, deadline: int, fs: seq<Fired>, now: int)
    requires AtSlot0(j, i, t, deadline) && now >= j.y.clock && OneEvent(fs) && (fs == [] ==> deadline <= now)
    ensures CanAct(j, Act.Turn(fs, now)) && Tidy(j, Act.Turn(fs, now)) && NotReturnOf(j, Act.Turn(fs, now), t)
    ensures var j' := Do(j, Act.Turn(fs, now));
            && Back(j', i, t) && j'.y.clock == now && Hears(j, Act.Turn(fs, now), i) == (fs != [])
            && (j'.v.items[i].revents != NONE <==> j.v.items[i].revents != NONE || fs != [])
  {
    hide SysInv, Step, TableOk, Settle, AllReported, Waiters, ComesBack, Fires, Holds;
    OwnersAre(j, i, t, deadline, fs);
    TurnTable(j, i, t, deadline, fs);
    CanTurn0(j, i, t, deadline, fs, now);
    LoneTurn(j.y, AllReported(j.v, fs), now, t, deadline);
    DoKeeps(j, Act.Turn(fs, now));
  }

  lemma CanTurn0<I, T>(j: Joint<I, T>, i: I, t: T, deadline: int, fs: seq<Fired>, now: int)
    requires AtSlot0(j, i, t, deadline) && now >= j.y.clock && FiredOk(j.v, fs)
    ensures CanAct(j, Act.Turn(fs, now))
  {
  }

  lemma SettleSlot0<I, T>(v: Events<I, T>, fdset: map<T, I>, fs: seq<Fired>, i: I)
    requires TableOk(v, fdset) && Slot0(v, i)
    requires OneEvent(fs)
    ensures Slot0(Settle(v, fs), i)
  {
  }

  lemma Returns<I, T>(j: Joint<I, T>, i: I, t: T)
    requires Back(j, i, t)
    ensures CanAct(j, Return) && Tidy(j, Return)
    ensures var j' := Do(j, Return);
            && Ready(j', i) && j'.y.s.active == t && j'.y.clock == j.y.clock
            && j'.v.items[i].revents == j.v.items[i].revents
    ensures End(j).2 <==> j.v.items[i].revents != NONE
  {
    hide Inv, ParksOk, Armed, Waiters;
    ReturnReady(j);
    EndKeeps(j);
    DoKeeps(j, Return);
    var v' := End(j).0;
    DeleteItemExact(j.v, i);
    assert v'.io.open == j.v.io.open;
  }

  /** Started with descriptor 0 open and registered. */
  lemma BegunIsReady<I, T>(j: Joint<I, T>, i: I)
    requires Begun(j) && Slot0(j.v, i) && j.y.s.cap > 0
    ensures Ready(j, i)
  {
    BegunOk(j);
  }

  lemma OneAct<I, T>(j: Joint<I, T>, a: Act<I, T>)
    requires JointInv(j) && CanAct(j, a) && Tidy(j, a)
    ensures JointInv(Do(j, a)) && TidyRun(j, [a]) && After(j, [a]) == Do(j, a)
    ensures forall i :: Heard(j, [a], i) <==> Hears(j, a, i)
    ensures forall t :: Stays(j, [a], t) <==> NotReturnOf(j, a, t)
  {
    hide JointInv, CanAct, Tidy, Do;
    DoKeeps(j, a);
    assert [a][1..] == [];
  }

  lemma {:induction false} ActsAppend<I, T>(j: Joint<I, T>, acts: seq<Act<I, T>>, more: seq<Act<I, T>>)
    requires JointInv(j) && TidyRun(j, acts) && TidyRun(After(j, acts), more)
    ensures TidyRun(j, acts + more) && After(j, acts + more) == After(After(j, acts), more)
    decreases |acts|
  {
    hide JointInv, CanAct, Tidy, Do;
    if acts == [] {
      assert acts + more == more;
    } else {
      DoKeeps(j, acts[0]);
      ActsAppend(Do(j, acts[0]), acts[1..], more);
      assert (acts + more)[0] == acts[0] && (acts + more)[1..] == acts[1..] + more;
    }
  }

  /** A wait that an event ends. */
  lemma WaitWithEvent<I, T>(j: Joint<I, T>, i: I) returns (acts: seq<Act<I, T>>)
    requires Ready(j, i)
    ensures TidyRun(j, acts) && Ready(After(j, acts), i) && After(j, acts).v.items[i].revents != NONE
  {
    hide JointInv, CanAct, Tidy, Do, Lone, OnlyWaits, ComesBack;
    var now, t := j.y.clock, j.y.s.active;
    var w: Act<I, T> := Wait0(1000, now);
    WaitParks(j, i, 1000);
    OneAct(j, w);
    var j1 := Do(j, w);
    var fs := [Fired(0, Mask(true, false, false), 0, 0)];
    TurnBack(j1, i, t, now + 1000, fs, now);
    var turn: Act<I, T> := Act.Turn(fs, now);
    OneAct(j1, turn);
    ActsAppend(j, [w], [turn]);
    var j2 := Do(j1, turn);
    Returns(j2, i, t);
    OneAct(j2, Return);
    ActsAppend(j, [w] + [turn], [Return]);
    acts := [w] + [turn] + [Return];
  }

  /** After that a wait for the same descriptor in which no event comes times out and reports that the
      descriptor is ready. */
  lemma TimeoutReportsReady<I, T>(j0: Joint<I, T>, i: I) returns (acts: seq<Act<I, T>>, timeout: Act<I, T>)
    requires Begun(j0) && Slot0(j0.v, i) && j0.y.s.cap > 0
    ensures JointInv(j0) && TidyRun(j0, acts) && timeout == Act.Turn([], After(j0, acts).y.clock + 1000)
    ensures var j := After(j0, acts); var w: Act<I, T> := Wait0(1000, j.y.clock);
            && CanAct(j, w) && Tidy(j, w) && ParkedOn(j, w, i) && JointInv(Do(j, w))
            && TidyRun(Do(j, w), [timeout]) && !Heard(Do(j, w), [timeout], i)
            && Stays(Do(j, w), [timeout], j.y.s.active)
            && var j2 := After(Do(j, w), [timeout]);
               && j2.y.s.active == j.y.s.active && CanAct(j2, Return)
               && j2.y.s.active in j2.fdset && j2.fdset[j2.y.s.active] in j2.v.items && End(j2).2
  {
    hide JointInv, CanAct, Tidy, Do, Lone, OnlyWaits, ComesBack, Hears, NotReturnOf;
    BegunIsReady(j0, i);
    acts := WaitWithEvent(j0, i);
    var j := After(j0, acts);
    var t := j.y.s.active;
    var w: Act<I, T> := Wait0(1000, j.y.clock);
    timeout := Act.Turn([], j.y.clock + 1000);
    WaitParks(j, i, 1000);
    DoKeeps(j, w);
    TurnBack(Do(j, w), i, t, j.y.clock + 1000, [], j.y.clock + 1000);
    OneAct(Do(j, w), timeout);
    var j2 := Do(Do(j, w), timeout);
    Returns(j2, i, t);
    ReturnReady(j2);
    BackIsActive(j2, i, t);
  }

  lemma BackIsActive<I, T>(j: Joint<I, T>, i: I, t: T)
    requires Back(j, i, t)
    ensures j.y.s.active == t
  {
  }

  // ---------- a second waiter ----------

  /** The active coroutine may wait, and c, new, is next. */
  ghost predicate NextIs<T>(y: Sys<T>, c: T)
  {
    && SysInv(y) && InClient(y) && y.s.run == [c] && y.s.io == [] && y.s.heap == [] && y.s.cap > 1
    && y.s.active in y.s.th && !y.s.th[y.s.active].notified
    && c in y.s.th && !y.s.th[c].notified && c != y.s.active && c != y.s.daemon && c in y.park && y.park[c] == Fresh
  }

  /** c has been switched to, and there is room for its deadline. */
  ghost predicate NewRuns<T>(y: Sys<T>, c: T)
  {
    && SysInv(y) && y.s.active == c && |y.s.heap| < y.s.cap && c != y.s.daemon
    && c in y.s.th && !y.s.th[c].notified && c in y.park && y.park[c] == Fresh
  }

  lemma CreateNext<T>(y: Sys<T>, c: T)
    requires Lone(y) && y.s.idle == [] && y.s.cap > 1 && c !in y.s.th
    ensures Enabled(y, Event.Create(c, true)) && NextIs(Step(y, Event.Create(c, true)).0, c)
    ensures Step(y, Event.Create(c, true)).0.s.active == y.s.active
    ensures Step(y, Event.Create(c, true)).0.clock == y.clock
  {
    hide HeapInv, QueueInv, PoolInv, TreeInv, ParksOk, InsertRunable;
    SchedRuns.StepKeeps(y, Event.Create(c, true));
    SchedLifecycle.AllocKeeps(y.s, c);
    InsertRunableKeeps(SchedLifecycle.Alloc(y.s, c).0, c);
  }

  lemma OneNode<T>(h: seq<Node<T>>, n: Node<T>)
    requires Distinct(h) && forall x :: x in h ==> x == n
    ensures |h| <= 1
  {
    SchedTheorems.NoDupSize(h);
    if h != [] {
      assert h[0] in h;
      assert SchedTheorems.AsSet(h) == {n};
    }
  }

  lemma NextSwitches<T>(s: Sched<T>, c: T, deadline: int)
    requires Quiet(s) && s.active != s.daemon && s.run == [c] && s.heap == [] && s.cap > 1
    requires c in s.th && c != s.active && c !in s.reclaim
    ensures Inv(WaitForIo(s, deadline)) && WaitForIo(s, deadline).active == s.active
    ensures var s' := Yield(WaitForIo(s, deadline));
            && s'.active == c && s'.daemon == s.daemon && |s'.heap| <= 1 && s'.cap == s.cap
            && c in s'.th && s'.th[c].notified == s.th[c].notified
  {
    hide WaitForIo, Yield, QueueInv, PoolInv, TreeInv, IsHeap;
    At(s, s.active);
    WaitForIoExact(s, deadline);
    YieldExact(WaitForIo(s, deadline));
    OneNode(WaitForIo(s, deadline).heap, Node(s.active, deadline));
  }

  lemma NextParks<T>(y: Sys<T>, c: T, ms: nat)
    requires NextIs(y, c)
    ensures var e := Event.Wait(ms, y.clock, true, false);
            && Enabled(y, e) && NewRuns(Step(y, e).0, c) && Step(y, e).0.clock == y.clock
  {
    hide Inv, ParksOk, WaitForIo, Yield;
    var e := Event.Wait(ms, y.clock, true, false);
    SchedRuns.StepKeeps(y, e);
    CanPark(y);
    QueuedIsKept(y, c);
    NextSwitches(y.s, c, y.clock + ms);
  }

  lemma QueuedIsKept<T>(y: Sys<T>, c: T)
    requires SysInv(y) && c in y.s.run
    ensures c !in y.s.reclaim
  {
    At(y.s, c);
  }

  lemma NewResumes<T>(y: Sys<T>, c: T)
    requires NewRuns(y, c)
    ensures Enabled(y, Resume(false)) && Unrelated(y, Resume(false))
    ensures var y' := Step(y, Resume(false)).0;
            && SysInv(y') && InClient(y') && y'.s == y.s && y'.clock == y.clock
  {
    hide Inv, ParksOk;
    SchedRuns.StepKeeps(y, Resume(false));
  }

  lemma SecondIsCreated<I, T>(j: Joint<I, T>, i: I, c: T)
    requires Ready(j, i) && j.y.s.idle == [] && j.y.s.cap > 1 && c !in j.y.s.th
    ensures var a: Act<I, T> := Other(Event.Create(c, true));
            && CanAct(j, a) && Tidy(j, a) && JointInv(Do(j, a))
            && NextIs(Do(j, a).y, c) && Do(j, a).y.s.active == j.y.s.active
            && Do(j, a).v == j.v && Do(j, a).fdset == j.fdset
  {
    hide Inv, ParksOk, TableOk, Step, NextIs, Waiters;
    CreateNext(j.y, c);
    DoKeeps(j, Other(Event.Create(c, true)));
  }

  lemma FirstParks<I, T>(j: Joint<I, T>, i: I, c: T)
    requires JointInv(j) && NextIs(j.y, c) && Slot0(j.v, i) && j.fdset == map[]
    ensures var w: Act<I, T> := Wait0(1000, j.y.clock);
            && CanAct(j, w) && Tidy(j, w) && JointInv(Do(j, w)) && NewRuns(Do(j, w).y, c)
            && Slot0(Do(j, w).v, i) && Do(j, w).fdset == map[j.y.s.active := i]
  {
    hide Inv, ParksOk, Step, Armed, NewRuns, Waiters;
    var w: Act<I, T> := Wait0(1000, j.y.clock);
    NextParks(j.y, c, 1000);
    WaitReady(j, w, true);
    BeginKeeps(j, i, true, false);
    AddOpens(j, i);
    DoKeeps(j, w);
  }

  lemma SecondRuns<I, T>(j: Joint<I, T>, i: I, c: T)
    requires JointInv(j) && NewRuns(j.y, c)
    ensures var a: Act<I, T> := Other(Resume(false));
            && CanAct(j, a) && Tidy(j, a) && JointInv(Do(j, a)) && InClient(Do(j, a).y)
            && Do(j, a).y.s == j.y.s && Do(j, a).v == j.v && Do(j, a).fdset == j.fdset
  {
    hide Inv, ParksOk, TableOk, Step, Waiters;
    NewResumes(j.y, c);
    DoKeeps(j, Other(Resume(false)));
  }

  lemma StartsIdle<I, T>(j: Joint<I, T>)
    requires Begun(j)
    ensures j.y.s.idle == []
  {
  }

  lemma WouldWait<I, T>(j: Joint<I, T>, i: I, c: T, p: T)
    requires JointInv(j) && InClient(j.y) && j.y.s.active == c && |j.y.s.heap| < j.y.s.cap
    requires c in j.y.s.th && !j.y.s.th[c].notified && Slot0(j.v, i) && j.fdset == map[p := i]
    ensures var w: Act<I, T> := Wait0(1000, j.y.clock);
            && CanAct(j, w) && !Tidy(j, w) && !j.y.s.th[j.y.s.active].notified
            && p in j.fdset && j.fdset[p] == j.v.table[0] == i
  {
    hide SysInv, TableOk, Waiters;
    assert j.fdset[p] == i;
  }

  /** From the start: one coroutine waits for descriptor 0, and a second one, created before, is about to. */
  lemma SecondWaitHappens<I, T>(j0: Joint<I, T>, i: I, c: T) returns (acts: seq<Act<I, T>>)
    requires Begun(j0) && Slot0(j0.v, i) && j0.y.s.cap > 1 && c !in j0.y.s.th
    ensures JointInv(j0) && TidyRun(j0, acts)
    ensures var j := After(j0, acts); var w: Act<I, T> := Wait0(1000, j.y.clock);
            && CanAct(j, w) && !Tidy(j, w) && !j.y.s.th[j.y.s.active].notified
            && j0.y.s.active in j.fdset && j.fdset[j0.y.s.active] == j.v.table[0] == i
  {
    hide JointInv, CanAct, Tidy, Do, Lone, NextIs, Slot0, InClient;
    BegunIsReady(j0, i);
    StartsIdle(j0);
    SecondIsCreated(j0, i, c);
    var create: Act<I, T> := Other(Event.Create(c, true));
    OneAct(j0, create);
    var j1 := Do(j0, create);
    FirstParks(j1, i, c);
    var w: Act<I, T> := Wait0(1000, j1.y.clock);
    OneAct(j1, w);
    ActsAppend(j0, [create], [w]);
    var j2 := Do(j1, w);
    SecondRuns(j2, i, c);
    OneAct(j2, Other(Resume(false)));
    ActsAppend(j0, [create] + [w], [Other(Resume(false))]);
    acts := [create] + [w] + [Other(Resume(false))];
    WouldWait(Do(j2, Other(Resume(false))), i, c, j0.y.s.active);
  }
}
