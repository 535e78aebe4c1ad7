/** Where the scheduler's operations need more than they check: room in the sleep heap, a parent that is
    pended, no children at the end. Each lemma says for every state exactly when the invariant survives. */
module SchedLimits {
  import opened HeapModel
  import opened Queues
  import opened SchedModel
  import opened SchedInvariant
  import opened SchedOps
  import opened SchedLifecycle
  import opened SchedRuns
  import SchedTheorems

  /** HeapPush refuses when the heap is full, and its result is ignored: the sleeper keeps its flag
      and no deadline, so nothing ever wakes it by time. */
  lemma SleepNeedsRoom<T>(s: Sched<T>, deadline: int)
    requires Quiet(s) && s.active != s.daemon
    ensures Inv(FallAsleep(s, deadline)) <==> |s.heap| < s.cap
    ensures |s.heap| >= s.cap ==>
              FallAsleep(s, deadline).heap == s.heap && FallAsleep(s, deadline).th[s.active].sleepFlag
  {
    var t := s.active;
    if |s.heap| < s.cap {
      FallAsleepExact(s, deadline);
    } else {
      assert Placed(s, t);
      assert !Placed(FallAsleep(s, deadline), t);
    }
  }

  /** The same for a coroutine that waits for its items. */
  lemma IoWaitNeedsRoom<T>(s: Sched<T>, deadline: int)
    requires Quiet(s) && s.active != s.daemon
    ensures Inv(WaitForIo(s, deadline)) <==> |s.heap| < s.cap
  {
    var t := s.active;
    if |s.heap| < s.cap {
      WaitForIoExact(s, deadline);
    } else {
      assert Placed(s, t);
      assert !Placed(WaitForIo(s, deadline), t);
    }
  }

  /** Unpend puts any coroutine on the run queue, pended or not: the invariant survives exactly when it
      is pended, or parked nowhere at all and neither active, nor the daemon, nor idle. */
  lemma UnpendNeedsPended<T>(s: Sched<T>, t: T)
    requires Quiet(s) && t in s.th && (s.th[t].link == Unlinked || s.th[t].link == InPend)
    ensures Quiet(SchedModel.Unpend(s, t)) <==> s.th[t].link == InPend || (Loose(s, t) && t != s.active)
  {
    assert Placed(s, t);
    if s.th[t].link == InPend {
      UnpendKeeps(s, t);
      assert s.active != t;
      QuietAfter(s, t);
    } else {
      UnlinkedUnpend(s, t);
      if Loose(s, t) && t != s.active {
        InsertRunableKeeps(s, t);
      } else {
        NotLooseBreaks(s, t);
      }
    }
  }

  lemma QuietAfter<T>(s: Sched<T>, t: T)
    requires Quiet(s) && t in s.th && s.th[t].link == InPend && t != s.active && Inv(SchedModel.Unpend(s, t))
    ensures Quiet(SchedModel.Unpend(s, t))
  {
    LeavePendEffect(s, t);
  }

  /** Unpend of a coroutine that is linked nowhere. */
  lemma UnlinkedUnpend<T>(s: Sched<T>, t: T)
    requires Quiet(s) && t in s.th && s.th[t].link == Unlinked
    ensures SchedModel.Unpend(s, t) == s.(run := s.run + [t], th := s.th[t := s.th[t].(runFlag := true, link := InRun)])
  {
    assert Placed(s, t);
    var r := s.th[t];
    assert r.(pendFlag := false) == r;
    assert s.th[t := r] == s.th;
  }

  lemma NotLooseBreaks<T>(s: Sched<T>, t: T)
    requires Quiet(s) && t in s.th && s.th[t].link == Unlinked && (!Loose(s, t) || t == s.active)
    ensures !Quiet(s.(run := s.run + [t], th := s.th[t := s.th[t].(runFlag := true, link := InRun)]))
  {
    var s' := s.(run := s.run + [t], th := s.th[t := s.th[t].(runFlag := true, link := InRun)]);
    if s.th[t].sleepFlag {
      assert !Placed(s', t);
    }
  }

  /** A coroutine that ends forgets its children without telling them: the tree survives exactly when it
      has none left. */
  lemma ResetNeedsNoChildren<T>(s: Sched<T>)
    requires Quiet(s) && s.th[s.active].parent.None?
    ensures TreeInv(Reset(s, s.active)) <==> s.th[s.active].subs == []
  {
    var t := s.active;
    if s.th[t].subs == [] {
      ResetTree(s, t);
    } else {
      var c := s.th[t].subs[0];
      assert TreeAt(s, t);
      assert s.th[c].parent == Some(t) && c != t;
      assert !TreeAt(Reset(s, t), c);
    }
  }

  // ---------- runs into these states ----------

  /** Nobody but the active coroutine can run, and `room` sleepers fit the heap. */
  ghost predicate Alone<T>(y: Sys<T>, room: nat)
  {
    SysInv(y) && InClient(y) && y.s.run == [] && y.s.idle == [] && |y.s.heap| + room == y.s.cap
  }

  /** A new coroutine is queued and has not started. */
  ghost predicate NextIs<T>(y: Sys<T>, t: T, room: nat)
  {
    && SysInv(y) && InClient(y) && y.s.run == [t] && y.s.idle == [] && |y.s.heap| + room == y.s.cap
    && t in y.s.th && t != y.s.active && t != y.s.daemon && t in y.park && y.park[t] == Fresh
  }

  lemma CreateQueues<T>(s: Sched<T>, t: T)
    requires Quiet(s) && s.idle == [] && s.run == [] && t !in s.th
    ensures var (s', t') := SchedLifecycle.Create(s, t, true);
            && t' == t && s' == s.(run := [t], th := s'.th, total := s'.total)
            && s'.th.Keys == s.th.Keys + {t} && t != s.active && t != s.daemon
  {
    AllocKeeps(s, t);
    InsertRunableKeeps(Alloc(s, t).0, t);
    hide HeapInv, QueueInv, PoolInv, TreeInv, InsertRunable;
  }

  lemma CreateNext<T>(y: Sys<T>, t: T, room: nat)
    requires Alone(y, room) && t !in y.s.th
    ensures Enabled(y, Event.Create(t, true))
    ensures var y1 := Step(y, Event.Create(t, true)).0;
            NextIs(y1, t, room) && y1.s.th.Keys == y.s.th.Keys + {t}
  {
    StepKeeps(y, Event.Create(t, true));
    CreateQueues(y.s, t);
    hide Inv, ParksOk, SchedLifecycle.Create;
  }

  /** The active coroutine sleeps, and the new one is switched to. */
  lemma SleepSwitches<T>(y: Sys<T>, t: T, room: nat)
    requires NextIs(y, t, room) && room > 0
    ensures Enabled(y, Event.Sleep(0, y.clock))
    ensures var y1 := Step(y, Event.Sleep(0, y.clock)).0;
            && SysInv(y1) && y1.s.active == t && t in y1.park && y1.park[t] == Fresh && t != y1.s.daemon
            && y1.s.run == [] && y1.s.idle == [] && |y1.s.heap| + (room - 1) == y1.s.cap
            && y1.s.th.Keys <= y.s.th.Keys
  {
    StepKeeps(y, Event.Sleep(0, y.clock));
    SleepGrows(y.s, y.clock);
    YieldExact(FallAsleep(y.s, y.clock));
    hide Inv, ParksOk, FallAsleep, Yield;
  }

  lemma FreshResumes<T>(y: Sys<T>, room: nat)
    requires SysInv(y) && y.s.active in y.park && y.park[y.s.active] == Fresh && y.s.active != y.s.daemon
    requires y.s.run == [] && y.s.idle == [] && |y.s.heap| + room == y.s.cap
    ensures Enabled(y, Resume(false)) && Alone(Step(y, Resume(false)).0, room)
    ensures Step(y, Resume(false)).0.s == y.s
  {
    StepKeeps(y, Resume(false));
    hide Inv, ParksOk;
  }

  lemma SleepNext<T>(y: Sys<T>, t: T, room: nat)
    requires NextIs(y, t, room) && room > 0
    ensures var es := [Event.Sleep(0, y.clock), Resume(false)];
            ValidRun(y, es) && Alone(Final(y, es), room - 1) && Final(y, es).s.th.Keys <= y.s.th.Keys
  {
    var e := Event<T>.Sleep(0, y.clock);
    SleepSwitches(y, t, room);
    OneStep(y, e);
    var y1 := Step(y, e).0;
    FreshResumes(y1, room - 1);
    OneStep(y1, Resume(false));
    hide Inv, ParksOk, Step, Enabled;
    SchedTheorems.RunAppend(y, [e], [Resume(false)]);
    assert [e] + [Resume(false)] == [e, Resume(false)];
  }

  lemma SleepGrows<T>(s: Sched<T>, deadline: int)
    requires Quiet(s) && s.active != s.daemon && |s.heap| < s.cap
    ensures Inv(FallAsleep(s, deadline)) && |FallAsleep(s, deadline).heap| == |s.heap| + 1
    ensures var s2 := FallAsleep(s, deadline);
            s2 == s.(heap := s2.heap, th := s2.th) && s2.th.Keys == s.th.Keys
  {
    FallAsleepExact(s, deadline);
    assert Placed(s, s.active);
    var h := InsertSleepEffect(SetWakeup(s, s.active, deadline), s.active);
  }

  lemma OneStep<T>(y: Sys<T>, e: Event<T>)
    requires SysInv(y) && Enabled(y, e)
    ensures SysInv(Step(y, e).0) && ValidRun(y, [e]) && Final(y, [e]) == Step(y, e).0
  {
    StepKeeps(y, e);
    hide SysInv, Enabled, Step;
    assert [e][1..] == [];
  }

  /** With as many new coroutines as there is room, the heap is full and somebody still runs. */
  lemma {:induction false} HeapFills<T>(y: Sys<T>, ts: seq<T>) returns (es: seq<Event<T>>)
    requires Alone(y, |ts|) && NoDup(ts) && forall t :: t in ts ==> t !in y.s.th
    ensures SysInv(y) && ValidRun(y, es) && Alone(Final(y, es), 0)
    decreases |ts|
  {
    hide SysInv, Enabled, Step, NextIs, InClient;
    es := [];
    if ts != [] {
      var t := ts[0];
      CreateNext(y, t, |ts|);
      OneStep(y, Event.Create(t, true));
      var y1 := Step(y, Event.Create(t, true)).0;
      SleepNext(y1, t, |ts|);
      var two := [Event.Sleep(0, y1.clock), Resume(false)];
      SchedTheorems.RunAppend(y, [Event.Create(t, true)], two);
      assert forall i :: 0 <= i < |ts| - 1 ==> ts[1..][i] == ts[i + 1];
      var rest := HeapFills(Final(y1, two), ts[1..]);
      es := [Event.Create(t, true)] + two;
      SchedTheorems.RunAppend(y, es, rest);
      es := es + rest;
    }
  }

  /** From the start, whatever the capacity: coroutines are created and go to sleep until the heap is full,
      and then the one that runs can neither sleep nor wait for a descriptor and be woken in time. */
  lemma FullHeapIsReachable<T>(y0: Sys<T>, ts: seq<T>, deadline: int) returns (es: seq<Event<T>>)
    requires Initial(y0) && NoDup(ts) && |ts| == y0.s.cap && forall t :: t in ts ==> t !in y0.s.th
    ensures SysInv(y0) && ValidRun(y0, es)
    ensures var y := Final(y0, es);
            && InClient(y) && |y.s.heap| == y.s.cap && y.s.active in y.s.th && y.s.th[y.s.active].link == Unlinked
            && !Inv(FallAsleep(y.s, deadline)) && !Inv(WaitForIo(y.s, deadline))
  {
    InitialOk(y0);
    es := HeapFills(y0, ts);
    var y := Final(y0, es);
    SleepNeedsRoom(y.s, deadline);
    IoWaitNeedsRoom(y.s, deadline);
    hide Inv, ParksOk;
  }

  /** At the start Unpend of the active coroutine, or of the daemon, puts it on the run queue. */
  lemma UnpendAtStart<T>(y0: Sys<T>, t: T)
    requires Initial(y0) && (t == y0.s.active || t == y0.s.daemon)
    ensures SysInv(y0) && t in y0.s.th && y0.s.th[t].link == Unlinked
    ensures !Quiet(SchedModel.Unpend(y0.s, t)) && t in SchedModel.Unpend(y0.s, t).run
  {
    InitialOk(y0);
    UnpendNeedsPended(y0.s, t);
    UnlinkedUnpend(y0.s, t);
  }

  /** A coroutine that takes a child and ends at once leaves it with a parent that does not know it. */
  lemma ChildOutlivesParent<T>(y: Sys<T>, c: T)
    requires SysInv(y) && Enabled(y, AddSub(y.s.active, c)) && c != y.s.active
    requires !y.s.th[c].subFlag && y.s.th[y.s.active].parent.None?
    ensures var s1 := Step(y, AddSub(y.s.active, c)).0.s; s1.active in s1.th && !TreeInv(Reset(s1, s1.active))
  {
    StepKeeps(y, AddSub(y.s.active, c));
    ResetNeedsNoChildren(Step(y, AddSub(y.s.active, c)).0.s);
    hide Inv, ParksOk, TreeInv, Reset;
  }
}
