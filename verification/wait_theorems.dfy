/** What holds for the coroutines that wait for descriptors over whole runs: the kernel watches for every one
    of them, its events wake it, no event is handed to a coroutine that is gone, and what a wait reports. */
module WaitTheorems {
  import opened Queues
  import opened SchedModel
  import opened SchedInvariant
  import opened SchedOps
  import opened SchedRuns
  import opened WaitSched
  import opened PollModel
  import opened EventModel
  import opened EventDispatch
  import opened WaitModel

  // ---------- runs ----------

  /** A run in which nobody waits for, releases or closes what somebody else waits for. */
  ghost predicate TidyRun<I, T>(j: Joint<I, T>, acts: seq<Act<I, T>>)
    requires JointInv(j)
    decreases |acts|
  {
    acts == []
    || (CanAct(j, acts[0]) && Tidy(j, acts[0]) && (DoKeeps(j, acts[0]); TidyRun(Do(j, acts[0]), acts[1..])))
  }

  ghost function After<I, T>(j: Joint<I, T>, acts: seq<Act<I, T>>): (r: Joint<I, T>)
    requires JointInv(j) && TidyRun(j, acts)
    ensures JointInv(r)
    decreases |acts|
  {
    if acts == [] then j else (DoKeeps(j, acts[0]); After(Do(j, acts[0]), acts[1..]))
  }

  /** The scheduler as started; items may be registered, and nothing is watched. */
  ghost predicate Begun<I, T>(j: Joint<I, T>)
  {
    Initial(j.y) && TableInv(j.v) && j.v.io.reg == map[] && j.fdset == map[]
  }

  lemma BegunOk<I, T>(j: Joint<I, T>)
    requires Begun(j)
    ensures JointInv(j)
  {
    InitialOk(j.y);
  }

  /** In every state such a run can reach, each coroutine on the IO queue has its item in its fd set and no
      other coroutine has it; the item is in the slot of its descriptor and belongs to the coroutine, and the
      kernel has exactly its interest, which is not empty. */
  lemma EveryWaiterIsArmed<I, T>(j0: Joint<I, T>, acts: seq<Act<I, T>>)
    requires Begun(j0)
    ensures JointInv(j0)
    ensures TidyRun(j0, acts) ==>
              var j := After(j0, acts);
              forall t :: t in j.y.s.io ==>
                && t in j.fdset && Armed(j.v, j.fdset[t]) && j.v.items[j.fdset[t]].owner == Some(t)
                && Interest(j.v.items[j.fdset[t]].events) != NONE
                && (forall u :: u in j.fdset && j.fdset[u] == j.fdset[t] ==> u == t)
  {
    BegunOk(j0);
    if TidyRun(j0, acts) {
      var j := After(j0, acts);
      forall t | t in j.y.s.io
        ensures t in j.fdset && WaitsFor(j.v, t, j.fdset[t]) && Holds(j.v, j.fdset[t])
      {
        TheItem(j, t);
      }
    }
  }

  /** So an event of its descriptor wakes it: when a turn reports one that is an error or that its handler
      takes, and no error of the descriptor before it, the coroutine leaves the IO queue for the run queue. */
  lemma EventWakesWaiter<I, T>(j: Joint<I, T>, fs: seq<Fired>, now: int, t: T, k: nat)
    requires JointInv(j) && CanAct(j, Act.Turn(fs, now)) && t in j.y.s.io && t in j.fdset && k < |fs|
    requires j.fdset[t] in j.v.items && fs[k].fd == j.v.items[j.fdset[t]].fd
    requires Handles(fs[k]) && StillThere(fs, k)
    ensures var s' := Do(j, Act.Turn(fs, now)).y.s; t !in s'.io && (t == s'.active || t in s'.run)
  {
    hide SysInv, TableOk, Waiters, Enabled, DoTurn, Settle, AllReported, WakeOwners;
    HasTable(j.v, j.fdset);
    TurnCanStart(j, fs, now);
    FirstIsReported(j, fs, t, k);
    TurnWakes(j.y, AllReported(j.v, fs), now, t);
  }

  /** No turn of such a run hands an event to a coroutine that is gone: whoever is reported to waits. */
  lemma OwnersAreAlive<I, T>(j0: Joint<I, T>, acts: seq<Act<I, T>>, fs: seq<Fired>)
    requires Begun(j0)
    ensures JointInv(j0)
    ensures TidyRun(j0, acts) && FiredOk(After(j0, acts).v, fs) ==>
              forall t :: t in AllReported(After(j0, acts).v, fs) ==>
                t in After(j0, acts).y.s.th && t in Waiters(After(j0, acts).y)
  {
    BegunOk(j0);
    if TidyRun(j0, acts) && FiredOk(After(j0, acts).v, fs) {
      OwnersWait(After(j0, acts), fs);
    }
  }

  // ---------- what a wait reports ----------

  /** The step is not t's return. */
  ghost predicate NotReturnOf<I, T>(j: Joint<I, T>, a: Act<I, T>, t: T)
  {
    a.Return? ==> j.y.s.active != t
  }

  /** An event for item i comes in this step. */
  ghost predicate Hears<I, T>(j: Joint<I, T>, a: Act<I, T>, i: I)
  {
    a.Turn? && Holds(j.v, i) && Fires(a.fs, j.v.items[i].fd)
  }

  /** A step keeps a waiter's item, and something is recorded in it then exactly when something was or an
      event for it comes. */
  lemma StepRecords<I, T>(j: Joint<I, T>, a: Act<I, T>, t: T)
    requires JointInv(j) && CanAct(j, a) && Tidy(j, a) && t in j.fdset && NotReturnOf(j, a, t)
    ensures var j' := Do(j, a); var i := j.fdset[t];
            && t in j'.fdset && j'.fdset[t] == i && i in j.v.items && i in j'.v.items
            && j'.v.items[i] == j.v.items[i].(revents := j'.v.items[i].revents)
            && (j'.v.items[i].revents != NONE <==> j.v.items[i].revents != NONE || Hears(j, a, i))
  {
    TheItem(j, t);
    var i := j.fdset[t];
    assert i in j.fdset.Values;
    match a
    case Wait(fd, read, ms, now, ready, refused) =>
      WaitReady(j, a, true);
      if !j.y.s.th[j.y.s.active].notified {
        BeginKeeps(j, j.v.table[fd], read, refused);
      }
    case Io(fd, read, ms, now, refused) =>
      WaitReady(j, a, true);
      BeginKeeps(j, j.v.table[fd], read, refused);
    case Return =>
      ReturnReady(j);
      EndKeeps(j);
    case Turn(fs, now) =>
      SettleKeeps(j.v, j.fdset, fs);
    case Register(fd, x) =>
      RegisterKeeps(j.v, j.fdset, fd, x);
    case Release(x) =>
      ReleaseKeeps(j.v, j.fdset, x);
    case Other(e) =>
    case Open(fd) =>
    case Close(fd) =>
  }

  /** t does not return in the run. */
  ghost predicate Stays<I, T>(j: Joint<I, T>, acts: seq<Act<I, T>>, t: T)
    requires JointInv(j) && TidyRun(j, acts)
    decreases |acts|
  {
    acts == [] || (NotReturnOf(j, acts[0], t) && (DoKeeps(j, acts[0]); Stays(Do(j, acts[0]), acts[1..], t)))
  }

  /** An event for item i comes somewhere in the run. */
  ghost predicate Heard<I, T>(j: Joint<I, T>, acts: seq<Act<I, T>>, i: I)
    requires JointInv(j) && TidyRun(j, acts)
    decreases |acts|
  {
    acts != [] && (Hears(j, acts[0], i) || (DoKeeps(j, acts[0]); Heard(Do(j, acts[0]), acts[1..], i)))
  }

  lemma {:induction false} RunRecords<I, T>(j: Joint<I, T>, acts: seq<Act<I, T>>, t: T)
    requires JointInv(j) && TidyRun(j, acts) && t in j.fdset && Stays(j, acts, t)
    ensures var j' := After(j, acts); var i := j.fdset[t];
            && t in j'.fdset && j'.fdset[t] == i && i in j.v.items && i in j'.v.items
            && (j'.v.items[i].revents != NONE <==> j.v.items[i].revents != NONE || Heard(j, acts, i))
    decreases |acts|
  {
    hide JointInv, CanAct, Do, Tidy, Hears, NotReturnOf;
    TheItem(j, t);
    if acts != [] {
      DoKeeps(j, acts[0]);
      StepRecords(j, acts[0], t);
      RunRecords(Do(j, acts[0]), acts[1..], t);
    }
  }

  /** The wait parked the coroutine, with the item in the slot of its descriptor. */
  ghost predicate ParkedOn<I, T>(j: Joint<I, T>, a: Act<I, T>, i: I)
    requires JointInv(j) && CanAct(j, a) && (a.Wait? || a.Io?)
  {
    i == j.v.table[a.fd] && j.y.s.active in Do(j, a).fdset && Do(j, a).fdset[j.y.s.active] == i
  }

  lemma ParkedWith<I, T>(j: Joint<I, T>, a: Act<I, T>, i: I)
    requires JointInv(j) && CanAct(j, a) && Tidy(j, a) && (a.Wait? || a.Io?) && ParkedOn(j, a, i)
    ensures i in j.v.items && i in Do(j, a).v.items && Do(j, a).v.items[i].revents == j.v.items[i].revents
  {
    WaitReady(j, a, true);
    if a.Io? || !j.y.s.th[j.y.s.active].notified {
      BeginKeeps(j, i, a.read, a.refused);
    }
  }

  /** st_wait and WaitFdReady report that the descriptor is ready exactly when an event of it came during the
      wait, or one was recorded in the item before: nothing clears m_revents_. So the report is right exactly
      when nothing was recorded before the call, or an event came. */
  lemma WaitReports<I, T>(j: Joint<I, T>, a: Act<I, T>, i: I, acts: seq<Act<I, T>>)
    requires JointInv(j) && CanAct(j, a) && Tidy(j, a) && (a.Wait? || a.Io?) && ParkedOn(j, a, i)
    ensures i in j.v.items && JointInv(Do(j, a))
    ensures TidyRun(Do(j, a), acts) && Stays(Do(j, a), acts, j.y.s.active) ==>
              var j1 := Do(j, a); var j2 := After(j1, acts);
              CanAct(j2, Return) && j2.y.s.active == j.y.s.active ==>
                && i in j2.v.items && j2.y.s.active in j2.fdset && j2.fdset[j2.y.s.active] == i
                && (End(j2).2 <==> j.v.items[i].revents != NONE || Heard(j1, acts, i))
                && ((End(j2).2 <==> Heard(j1, acts, i)) <==> j.v.items[i].revents == NONE || Heard(j1, acts, i))
  {
    hide JointInv, CanAct, Do, Tidy, Hears, NotReturnOf;
    DoKeeps(j, a);
    ParkedWith(j, a, i);
    var j1 := Do(j, a);
    if TidyRun(j1, acts) && Stays(j1, acts, j.y.s.active) {
      RunRecords(j1, acts, j.y.s.active);
    }
  }

  /** And that is what st_wait returns. */
  lemma ReportIsResult<I, T>(j: Joint<I, T>)
    requires JointInv(j) && CanAct(j, Return) && j.y.park[j.y.s.active] == AtWait
    ensures j.y.s.active in j.fdset && j.fdset[j.y.s.active] in j.v.items
    ensures var got := End(j).2;
            && Do(j, Return).y == Step(j.y, Resume(got)).0
            && Step(j.y, Resume(got)).1 == WaitResult(got, j.y.s.th[j.y.s.active].notified)
  {
    ReturnReady(j);
  }

  // ---------- the direction of a wait ----------

  /** The descriptor and the direction of t's latest call of st_wait or WaitFdReady in a run, `before` being
      that before the run. */
  ghost function Asked<I, T>(j: Joint<I, T>, acts: seq<Act<I, T>>, t: T, before: Option<(nat, bool)>)
    : Option<(nat, bool)>
    requires JointInv(j) && TidyRun(j, acts)
    decreases |acts|
  {
    if acts == [] then before
    else (DoKeeps(j, acts[0]); Asked(Do(j, acts[0]), acts[1..], t, AskedIn(j, acts[0], t, before)))
  }

  ghost function AskedIn<I, T>(j: Joint<I, T>, a: Act<I, T>, t: T, before: Option<(nat, bool)>): Option<(nat, bool)>
  {
    if (a.Wait? || a.Io?) && j.y.s.active == t then Some((a.fd, a.read)) else before
  }

  /** t's item has the descriptor and the direction t asked for. */
  ghost predicate AsAsked<I, T>(j: Joint<I, T>, t: T, asked: Option<(nat, bool)>)
  {
    t in j.fdset ==>
      && asked.Some? && j.fdset[t] in j.v.items && j.v.items[j.fdset[t]].fd == asked.value.0
      && (j.v.items[j.fdset[t]].events.read <==> asked.value.1)
      && (j.v.items[j.fdset[t]].events.write <==> !asked.value.1)
  }

  lemma StepAsks<I, T>(j: Joint<I, T>, a: Act<I, T>, t: T, asked: Option<(nat, bool)>)
    requires JointInv(j) && CanAct(j, a) && Tidy(j, a) && AsAsked(j, t, asked)
    ensures AsAsked(Do(j, a), t, AskedIn(j, a, t, asked))
  {
    if t in j.fdset && NotReturnOf(j, a, t) {
      StepRecords(j, a, t);
      if a.Wait? || a.Io? {
        WaitReady(j, a, true);
      }
    } else if t in j.fdset {
      ReturnReady(j);
      EndKeeps(j);
    } else if a.Wait? || a.Io? {
      BeginAsks(j, a, t, asked);
    }
  }

  lemma BeginAsks<I, T>(j: Joint<I, T>, a: Act<I, T>, t: T, asked: Option<(nat, bool)>)
    requires JointInv(j) && CanAct(j, a) && Tidy(j, a) && t !in j.fdset && (a.Wait? || a.Io?)
    ensures AsAsked(Do(j, a), t, AskedIn(j, a, t, asked))
  {
    WaitReady(j, a, true);
    if a.Io? || !j.y.s.th[j.y.s.active].notified {
      var i := j.v.table[a.fd];
      BeginKeeps(j, i, a.read, a.refused);
      BeginDirection(j, i, a.read, a.refused);
    }
  }

  lemma {:induction false} RunAsks<I, T>(j: Joint<I, T>, acts: seq<Act<I, T>>, t: T, asked: Option<(nat, bool)>)
    requires JointInv(j) && TidyRun(j, acts) && AsAsked(j, t, asked)
    ensures AsAsked(After(j, acts), t, Asked(j, acts, t, asked))
    decreases |acts|
  {
    hide JointInv, CanAct, Do, Tidy, AsAsked, AskedIn;
    if acts != [] {
      DoKeeps(j, acts[0]);
      StepAsks(j, acts[0], t, asked);
      RunAsks(Do(j, acts[0]), acts[1..], t, AskedIn(j, acts[0], t, asked));
    }
  }

  /** In every state a tidy run can reach, each coroutine on the IO queue is watched for exactly the descriptor
      and the direction of its own call: a reader for reading only, a writer for writing only. */
  lemma WatchedAsAsked<I, T>(j0: Joint<I, T>, acts: seq<Act<I, T>>, t: T)
    requires Begun(j0)
    ensures JointInv(j0)
    ensures TidyRun(j0, acts) && t in After(j0, acts).y.s.io ==>
              var j := After(j0, acts); var asked := Asked(j0, acts, t, None);
              && asked.Some? && t in j.fdset
              && Watches(j.v, asked.value.0, j.fdset[t], t, asked.value.1)
  {
    BegunOk(j0);
    if TidyRun(j0, acts) && t in After(j0, acts).y.s.io {
      RunAsks(j0, acts, t, None);
      var j := After(j0, acts);
      TheItem(j, t);
    }
  }

  // ---------- a second wait for the same descriptor ----------

  /** A coroutine that waits for a descriptor somebody else waits for takes the item over without having it:
      it parks with an empty fd set, so its wait will report a timeout, while the events go to it. */
  lemma SecondWaiter<I, T>(j: Joint<I, T>, a: Act<I, T>, t: T)
    requires JointInv(j) && CanAct(j, a) && (a.Io? || (a.Wait? && !j.y.s.th[j.y.s.active].notified))
    requires t in j.fdset && j.fdset[t] == j.v.table[a.fd]
    ensures var j' := Do(j, a); var u := j.y.s.active;
            && u != t && u in j'.y.s.io && u in Waiters(j'.y) && u !in j'.fdset
            && j'.fdset == j.fdset && t in Waiters(j'.y)
            && j'.v == Watching(j.v, j.fdset[t], Direction(j.v.items[j.fdset[t]].events, a.read), u)
  {
    hide SysInv, TableOk, Step, Waiters, Waits;
    WaitReady(j, a, true);
    ParkedIs(j.y, WaitEvent(j, a, true));
    assert j.fdset[t] in j.fdset.Values;
  }

  /** After that every event of the descriptor is reported to the second coroutine, and no event at all to the
      first one. */
  lemma FirstIsForgotten<I, T>(j: Joint<I, T>, i: I, mask: Mask, u: T, t: T)
    requires JointInv(j) && t in j.fdset && j.fdset[t] == i && Holds(j.v, i) && u != t
    ensures i in j.v.items && TableInv(Watching(j.v, i, mask, u))
    ensures forall f: Fired :: f.fd == j.v.items[i].fd ==> OwnerOf(Watching(j.v, i, mask, u), f) == Some(u)
    ensures forall fs: seq<Fired> ::
              FiredOk(Watching(j.v, i, mask, u), fs) ==> t !in AllReported(Watching(j.v, i, mask, u), fs)
  {
    hide SysInv, AllReported, Handles, StillThere;
    WatchingKeeps(j.v, i, mask, u);
    var v' := Watching(j.v, i, mask, u);
    forall fs: seq<Fired> | FiredOk(v', fs)
      ensures t !in AllReported(v', fs)
    {
      ReportedTo(v', fs, t);
      forall k | 0 <= k < |fs|
        ensures OwnerOf(v', fs[k]) != Some(t)
      {
        var w :| w in j.fdset && j.fdset[w] == j.v.table[fs[k].fd];
        TheItem(j, w);
      }
    }
  }
}
