/** How long the daemon lets the kernel wait: GetTimeout of src/st_sys.h and Wait of src/st_thread.cc. */
module DaemonPoll {
  import opened HeapModel
  import opened Queues
  import opened SchedModel
  import opened SchedInvariant
  import opened SchedOps
  import opened SchedLifecycle
  import opened SchedRuns
  import opened SchedTheorems

  /** A poll without a limit, or one that ends after ms milliseconds at the latest. */
  datatype Poll = Unbounded | Within(ms: int)

  const MAX_INT: int := 0x7fffffff

  /** The conversion of an int64_t argument to int32_t. */
  function ToInt32(x: int): (r: int)
    ensures -0x80000000 <= r <= MAX_INT
    ensures -0x80000000 <= x <= MAX_INT ==> r == x
  {
    (x + 0x80000000) % 0x1_0000_0000 - 0x80000000
  }

  /** GetTimeout: one second when nobody sleeps, else the time from m_last_clock_ to the top's deadline. */
  function GetTimeout<T(==)>(y: Sys<T>): int
    requires y.s.heap != [] ==> y.s.heap[0].item in y.s.th
  {
    if y.s.heap == [] then 1000
    else
      var wakeup := y.s.th[y.s.heap[0].item].wakeup;
      if wakeup < y.lastClock then 0 else wakeup - y.lastClock
  }

  /** Wait: at most 30 seconds, split into seconds and microseconds; a value <= 0 has no limit. */
  function PollFor(timeout: int): Poll
  {
    var arg := ToInt32(timeout);
    var w := if 30000 < arg then 30000 else arg;
    if w <= 0 then Unbounded
    else
      var sec, usec := w / 1000, w % 1000 * 1000;
      Within(sec * 1000 + usec / 1000)
  }

  /** Every deadline in the heap lies after the daemon's last look at the clock. */
  ghost predicate DeadlinesAhead<T>(y: Sys<T>)
  {
    forall n :: n in y.s.heap ==> n.key > y.lastClock
  }

  /** The step does not put a deadline in the heap that m_last_clock_ has already reached. */
  ghost predicate Timely<T>(y: Sys<T>, e: Event<T>)
    requires SysInv(y)
  {
    Switches(y, e) && DeadlineOf(e).Some? ==> DeadlineOf(e).value > y.lastClock
  }

  lemma TurnAhead<T>(y: Sys<T>, owners: seq<T>, now: int)
    requires SysInv(y) && Enabled(y, Turn(owners, now))
    ensures DeadlinesAhead(DoTurn(y, owners, now))
  {
    hide Inv, ParksOk, WakeOwners, Wakeup, MovedToRun, IsDue;
    TurnReady(y.s, owners, now);
    var s1 := WakeOwners(y.s, owners);
    var due := WakeupExact(s1, now);
    YieldExact(Wakeup(s1, now));
  }

  lemma SleepEnters<T>(y: Sys<T>, deadline: int, p: Park, now: int)
    requires Quiet(y.s) && y.s.active != y.s.daemon && |y.s.heap| < y.s.cap
    ensures Inv(FallAsleep(y.s, deadline))
    ensures Node(y.s.active, deadline) in Switch(y, FallAsleep(y.s, deadline), p, now).s.heap
  {
    hide Inv;
    FallAsleepExact(y.s, deadline);
    YieldExact(FallAsleep(y.s, deadline));
  }

  lemma IoEnters<T>(y: Sys<T>, deadline: int, p: Park, now: int)
    requires Quiet(y.s) && y.s.active != y.s.daemon && |y.s.heap| < y.s.cap
    ensures Inv(WaitForIo(y.s, deadline))
    ensures Node(y.s.active, deadline) in Switch(y, WaitForIo(y.s, deadline), p, now).s.heap
  {
    hide Inv;
    WaitForIoExact(y.s, deadline);
    YieldExact(WaitForIo(y.s, deadline));
  }

  /** The coroutine that goes to sleep in a step is in the heap with the step's deadline. */
  lemma SleeperEnters<T>(y: Sys<T>, e: Event<T>)
    requires SysInv(y) && Enabled(y, e) && Switches(y, e) && DeadlineOf(e).Some?
    ensures Node(y.s.active, DeadlineOf(e).value) in Step(y, e).0.s.heap
  {
    hide Inv, ParksOk, FallAsleep, WaitForIo, Switch;
    match e
    case Sleep(ms, now) => SleepEnters(y, now + ms, AtSleep, now);
    case NotifyWait(ms, now) => SleepEnters(y, now + Normalize(ms), AtNotifyWait, now);
    case Wait(ms, now, _, _) => IoEnters(y, now + Normalize(ms), AtWait, now);
    case Io(ms, now, _) => IoEnters(y, now + Normalize(ms), AtIo, now);
    case _ =>
  }

  lemma OthersKeepLastClock<T>(y: Sys<T>, e: Event<T>)
    requires SysInv(y) && Enabled(y, e) && !e.Turn?
    ensures Step(y, e).0.lastClock == y.lastClock
  {
    hide Inv, ParksOk, FallAsleep, WaitForIo, Shelve, Yield, WakeupParent, SchedLifecycle.Create;
  }

  /** Deadlines stay ahead of the daemon's clock through a step exactly when the step is timely. */
  lemma StepAhead<T>(y: Sys<T>, e: Event<T>)
    requires SysInv(y) && Enabled(y, e) && DeadlinesAhead(y)
    ensures DeadlinesAhead(Step(y, e).0) <==> Timely(y, e)
  {
    hide SysInv, Step, Enabled, Switches;
    if e.Turn? {
      StepOfTurn(y, e.owners, e.now);
      TurnAhead(y, e.owners, e.now);
    } else {
      var added := StepShape(y, e);
      OthersKeepLastClock(y, e);
      if Switches(y, e) && DeadlineOf(e).Some? {
        SleeperEnters(y, e);
      }
    }
  }

  lemma StepOfTurn<T>(y: Sys<T>, owners: seq<T>, now: int)
    requires SysInv(y) && Enabled(y, Turn(owners, now))
    ensures Step(y, Turn(owners, now)).0 == DoTurn(y, owners, now)
    ensures Timely(y, Turn(owners, now))
  {
  }

  ghost predicate TimelyRun<T>(y: Sys<T>, es: seq<Event<T>>)
    requires SysInv(y) && ValidRun(y, es)
    decreases |es|
  {
    es == [] || (Timely(y, es[0]) && (StepKeeps(y, es[0]); TimelyRun(Step(y, es[0]).0, es[1..])))
  }

  lemma {:induction false} DeadlinesStayAhead<T>(y: Sys<T>, es: seq<Event<T>>)
    requires SysInv(y) && ValidRun(y, es) && TimelyRun(y, es) && DeadlinesAhead(y)
    ensures DeadlinesAhead(Final(y, es))
    decreases |es|
  {
    hide SysInv, Step, Enabled, Timely, DeadlinesAhead;
    if es != [] {
      StepKeeps(y, es[0]);
      StepAhead(y, es[0]);
      DeadlinesStayAhead(Step(y, es[0]).0, es[1..]);
    }
  }

  /** While someone sleeps after a timely run, the time left to the earliest deadline is at least one
      millisecond, and the poll lasts the smaller of it and 30 seconds exactly when it fits an int:
      past that, up to 2^32, the poll has no limit. With nobody asleep the poll lasts one second. */
  lemma PollIsBounded<T>(y0: Sys<T>, es: seq<Event<T>>)
    requires SysInv(y0) && DeadlinesAhead(y0) && ValidRun(y0, es) && TimelyRun(y0, es)
    ensures var y := Final(y0, es);
            && (y.s.heap == [] ==> PollFor(GetTimeout(y)) == Within(1000))
            && (y.s.heap != [] ==>
                 var left := y.s.heap[0].key - y.lastClock;
                 && y.s.heap[0].item in y.s.th
                 && left >= 1 && GetTimeout(y) == left
                 && (forall n :: n in y.s.heap ==> left <= n.key - y.lastClock)
                 && (left <= MAX_INT ==> PollFor(left) == Within(if left < 30000 then left else 30000))
                 && (MAX_INT < left < 0x1_0000_0000 ==> PollFor(left) == Unbounded))
  {
    hide Step, Enabled;
    DeadlinesStayAhead(y0, es);
    var y := Final(y0, es);
    if y.s.heap != [] {
      EarliestIsTop(y);
      PollForLeft(y.s.heap[0].key - y.lastClock);
    }
  }

  /** In any state the timeout is the time left to the earliest deadline, and none at all when that is past. */
  lemma TimeLeft<T>(y: Sys<T>)
    requires SysInv(y) && y.s.heap != []
    ensures var left := y.s.heap[0].key - y.lastClock;
            && y.s.heap[0].item in y.s.th && (forall n :: n in y.s.heap ==> left <= n.key - y.lastClock)
            && (left >= 0 ==> GetTimeout(y) == left) && (left < 0 ==> GetTimeout(y) == 0)
  {
    hide SysInv;
    EarliestIsTop(y);
  }

  lemma EarliestIsTop<T>(y: Sys<T>)
    requires SysInv(y) && y.s.heap != []
    ensures y.s.heap[0] in y.s.heap && y.s.heap[0].item in y.s.th
    ensures y.s.th[y.s.heap[0].item].wakeup == y.s.heap[0].key
    ensures forall n :: n in y.s.heap ==> y.s.heap[0].key <= n.key
  {
    assert y.s.heap[0] in y.s.heap;
    forall n | n in y.s.heap
      ensures y.s.heap[0].key <= n.key
    {
      var i :| 0 <= i < |y.s.heap| && y.s.heap[i] == n;
      TopIsMinimum(y.s.heap, i + 1);
    }
  }

  lemma PollForLeft(left: int)
    requires left >= 1
    ensures left <= MAX_INT ==> PollFor(left) == Within(if left < 30000 then left else 30000)
    ensures MAX_INT < left < 0x1_0000_0000 ==> PollFor(left) == Unbounded
  {
  }

  /** A fresh scheduler: one call of st_sleep(0), and the daemon polls without a limit although the
      caller is due at once. */
  lemma SleepZeroPollsWithoutLimit<T>(y0: Sys<T>)
    requires Initial(y0) && y0.s.cap > 0
    ensures SysInv(y0)
    ensures var e := Event.Sleep(0, y0.clock);
            && Enabled(y0, e) && !Timely(y0, e)
            && var y := Step(y0, e).0;
               && y.s.active == y.s.daemon && HasItem(y.s.heap, y0.s.primo)
               && y.s.heap != [] && y.s.heap[0].item in y.s.th
               && PollFor(GetTimeout(y)) == Unbounded
  {
    InitialOk(y0);
    FirstSleep(y0, Event.Sleep(0, y0.clock), y0.clock);
  }

  /** A fresh scheduler: an unlimited st_notify_wait one millisecond after the daemon's last look at
      the clock is timely, but the time left is 2^31 ms and the poll has no limit. */
  lemma WaitForeverPollsWithoutLimit<T>(y0: Sys<T>)
    requires Initial(y0) && y0.s.cap > 0
    ensures SysInv(y0)
    ensures var e := NotifyWait(-1, y0.clock + 1);
            && Enabled(y0, e) && Timely(y0, e)
            && var y := Step(y0, e).0;
               && y.s.active == y.s.daemon && HasItem(y.s.heap, y0.s.primo)
               && y.s.heap != [] && y.s.heap[0].item in y.s.th
               && PollFor(GetTimeout(y)) == Unbounded
  {
    hide Inv, ParksOk, Step;
    InitialOk(y0);
    FirstSleep(y0, NotifyWait(-1, y0.clock + 1), y0.clock + 1 + MAX_INT);
  }

  lemma FirstSleep<T>(y0: Sys<T>, e: Event<T>, deadline: int)
    requires Initial(y0) && y0.s.cap > 0 && SysInv(y0)
    requires (e.Sleep? || (e.NotifyWait? && e.ms != 0)) && e.now >= y0.clock && DeadlineOf(e) == Some(deadline)
    ensures Enabled(y0, e)
    ensures var y := Step(y0, e).0;
            && y.s.active == y.s.daemon && HasItem(y.s.heap, y0.s.primo) && y.lastClock == y0.lastClock
            && y.s.heap == [Node(y0.s.primo, deadline)]
            && y0.s.primo in y.s.th && y.s.th[y0.s.primo].wakeup == deadline
  {
    hide Inv, ParksOk, FallAsleep, Yield;
    FirstFallAsleep(y0.s, deadline);
    YieldExact(FallAsleep(y0.s, deadline));
    assert [Node(y0.s.primo, deadline)][0].item == y0.s.primo;
  }

  lemma FirstFallAsleep<T>(s: Sched<T>, deadline: int)
    requires Quiet(s) && s.heap == [] && s.cap > 0 && s.active != s.daemon
    ensures Inv(FallAsleep(s, deadline))
    ensures FallAsleep(s, deadline)
         == s.(heap := [Node(s.active, deadline)],
               th := s.th[s.active := s.th[s.active].(wakeup := deadline, sleepFlag := true)])
  {
    hide Inv;
    FallAsleepExact(s, deadline);
  }
}
