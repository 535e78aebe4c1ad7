/** The composite operations of src/st_thread.cc: timed wakeup, the switch, stack reuse. */
module SchedOps {
  import opened HeapModel
  import opened Queues
  import opened SchedModel
  import opened SchedInvariant

  // ---------- timed wakeup ----------

  /** The loop in Wakeup: coroutines due by now leave the heap for the run queue, top first. */
  function Wakeup<T(==)>(s: Sched<T>, now: int): Sched<T>
    requires Quiet(s)
    decreases |s.heap|
  {
    if s.heap == [] || s.heap[0].key > now then s
    else
      WakeTopKeeps(s);
      Wakeup(WakeTop(s), now)
  }

  /** The state after one pass of Wakeup for t. */
  ghost predicate TopMoved<T>(s: Sched<T>, s1: Sched<T>, t: T)
  {
    && t in s.th && s.th[t].sleepFlag
    && s1 == s.(run := s.run + [t], io := Drop(s.io, t), heap := s1.heap,
                th := s.th[t := s.th[t].(ioFlag := false, sleepFlag := false, runFlag := true, link := InRun)])
    && (forall n :: n in s1.heap ==> n in s.heap && n.item != t)
    && (forall n :: n in s.heap && n.item != t ==> n in s1.heap)
  }

  lemma WakeTopKeeps<T>(s: Sched<T>)
    requires Quiet(s) && s.heap != []
    ensures TopLinked(s)
    ensures Quiet(WakeTop(s)) && |WakeTop(s).heap| == |s.heap| - 1
    ensures TopMoved(s, WakeTop(s), s.heap[0].item)
  {
    var t := s.heap[0].item;
    assert s.heap[0] in s.heap && HasItem(s.heap, t);
    assert Placed(s, t) && Placed(s, s.active);
    if s.th[t].ioFlag {
      WakeIoWaiter(s, t);
    } else {
      WakeSleeper(s, t);
    }
  }

  lemma WakeIoWaiter<T>(s: Sched<T>, t: T)
    requires Quiet(s) && s.heap != [] && t == s.heap[0].item && t in s.th && s.th[t].ioFlag && s.th[t].link == InIo
    requires HasItem(s.heap, t) && t != s.active
    ensures Quiet(WakeTop(s)) && |WakeTop(s).heap| == |s.heap| - 1 && TopMoved(s, WakeTop(s), t)
  {
    var r := s.th[t];
    assert Placed(s, t);
    RemoveIOWaitKeeps(s, t);
    var h := RemoveIOWaitEffect(s, t);
    var s1 := RemoveIOWait(s, t);
    InsertRunableKeeps(s1, t);
    SetTwice(s.th, t, r.(ioFlag := false, sleepFlag := false, link := Unlinked),
             r.(ioFlag := false, sleepFlag := false, runFlag := true, link := InRun));
  }

  lemma WakeSleeper<T>(s: Sched<T>, t: T)
    requires Quiet(s) && s.heap != [] && t == s.heap[0].item && t in s.th && !s.th[t].ioFlag && s.th[t].link == Unlinked
    requires HasItem(s.heap, t) && t != s.active && s.th[t].sleepFlag
    ensures Quiet(WakeTop(s)) && |WakeTop(s).heap| == |s.heap| - 1 && TopMoved(s, WakeTop(s), t)
  {
    var r := s.th[t];
    assert Placed(s, t);
    RemoveSleepKeeps(s, t);
    var h := RemoveSleepEffect(s, t);
    var s1 := RemoveSleep(s, t);
    InsertRunableKeeps(s1, t);
    SetTwice(s.th, t, r.(sleepFlag := false), r.(sleepFlag := false, runFlag := true, link := InRun));
    assert r.(sleepFlag := false, runFlag := true, link := InRun)
        == r.(ioFlag := false, sleepFlag := false, runFlag := true, link := InRun);
  }

  /** `due` lists the sleepers whose deadline is reached by now, each once, in deadline order. */
  ghost predicate IsDue<T>(s: Sched<T>, now: int, due: seq<T>)
  {
    && NoDup(due)
    && (forall t :: t in due ==> t in s.th && s.th[t].sleepFlag && s.th[t].wakeup <= now)
    && (forall t :: t in s.th && s.th[t].sleepFlag && s.th[t].wakeup <= now ==> t in due)
    && (forall i, j :: 0 <= i < j < |due| ==>
         due[i] in s.th && due[j] in s.th && s.th[due[i]].wakeup <= s.th[due[j]].wakeup)
  }

  /** The coroutines of `due` are appended to the run queue and leave the heap and the IO queue;
      nothing else changes. */
  ghost predicate MovedToRun<T>(s: Sched<T>, s': Sched<T>, due: seq<T>)
  {
    && s' == s.(run := s.run + due, io := s'.io, heap := s'.heap, th := s'.th)
    && s'.th.Keys == s.th.Keys
    && (forall t :: t in s.th ==>
         s'.th[t] == if t in due
           then s.th[t].(ioFlag := false, sleepFlag := false, runFlag := true, link := InRun)
           else s.th[t])
    && (forall n :: n in s'.heap ==> n in s.heap && n.item !in due)
    && (forall n :: n in s.heap && n.item !in due ==> n in s'.heap)
    && (forall t :: t in s'.io ==> t in s.io && t !in due)
    && (forall t :: t in s.io && t !in due ==> t in s'.io)
  }

  /** What Wakeup(now) does: it moves the coroutines due by now, and leaves only later deadlines. */
  ghost predicate Woken<T>(s: Sched<T>, s': Sched<T>, now: int, due: seq<T>)
  {
    && IsDue(s, now, due)
    && MovedToRun(s, s', due)
    && (forall n :: n in s'.heap ==> n.key > now)
  }

  /** Nothing is due when the top of the heap is later than now. */
  lemma NoneDue<T>(s: Sched<T>, now: int)
    requires Inv(s) && (s.heap == [] || s.heap[0].key > now)
    ensures Woken(s, s, now, [])
  {
    forall n | n in s.heap
      ensures n.key > now
    {
      var i :| 0 <= i < |s.heap| && s.heap[i] == n;
      TopIsMinimum(s.heap, i + 1);
    }
    forall t | t in s.th && s.th[t].sleepFlag
      ensures s.th[t].wakeup > now
    {
      assert Placed(s, t);
      var i :| 0 <= i < |s.heap| && s.heap[i].item == t;
      assert s.heap[i] in s.heap;
    }
    assert s.run + [] == s.run;
  }

  lemma RestIsLater<T>(s: Sched<T>, s1: Sched<T>, now: int, rest: seq<T>)
    requires s.heap != [] && HeapInv(s) && TopMoved(s, s1, s.heap[0].item)
    requires forall t :: t in s.th && s.th[t].sleepFlag ==> HasItem(s.heap, t)
    requires IsDue(s1, now, rest)
    ensures forall x :: x in rest ==>
              x in s.th && x != s.heap[0].item && s.th[s.heap[0].item].wakeup <= s.th[x].wakeup
  {
    var t := s.heap[0].item;
    assert s.heap[0] in s.heap;
    forall x | x in rest
      ensures x in s.th && x != t && s.th[t].wakeup <= s.th[x].wakeup
    {
      var i :| 0 <= i < |s.heap| && s.heap[i].item == x;
      TopIsMinimum(s.heap, i + 1);
      assert s.heap[i] in s.heap;
    }
  }

  lemma DueAfterTop<T>(s: Sched<T>, s1: Sched<T>, now: int, rest: seq<T>)
    requires s.heap != [] && s.heap[0].key <= now
    requires HeapInv(s) && TopMoved(s, s1, s.heap[0].item)
    requires forall t :: t in s.th && s.th[t].sleepFlag ==> HasItem(s.heap, t)
    requires IsDue(s1, now, rest)
    ensures IsDue(s, now, [s.heap[0].item] + rest)
  {
    hide IsHeap, Distinct, HasItem;
    var t := s.heap[0].item;
    var due := [t] + rest;
    assert s.heap[0] in s.heap;
    RestIsLater(s, s1, now, rest);
    forall i, j | 0 <= i < j < |due|
      ensures due[i] != due[j] && s.th[due[i]].wakeup <= s.th[due[j]].wakeup
    {
      assert due[j] == rest[j - 1];
      if i > 0 {
        assert due[i] == rest[i - 1];
      }
    }
  }

  lemma MovedAfterTop<T>(s: Sched<T>, s1: Sched<T>, s': Sched<T>, t: T, rest: seq<T>)
    requires TopMoved(s, s1, t) && MovedToRun(s1, s', rest) && NoDup(s.io) && t !in rest
    ensures MovedToRun(s, s', [t] + rest)
  {
    var due := [t] + rest;
    DropKeepsTheRest(s.io, t);
    assert s.run + due == s.run + [t] + rest;
    assert s1.th.Keys == s.th.Keys;
    forall x | x in s.th
      ensures s'.th[x] == if x in due
                then s.th[x].(ioFlag := false, sleepFlag := false, runFlag := true, link := InRun)
                else s.th[x]
    {
      assert x in due <==> x == t || x in rest;
      assert s'.th[x] == if x in rest
                then s1.th[x].(ioFlag := false, sleepFlag := false, runFlag := true, link := InRun)
                else s1.th[x];
    }
  }

  lemma WokenAfterTop<T>(s: Sched<T>, s1: Sched<T>, s': Sched<T>, now: int, rest: seq<T>)
    requires s.heap != [] && s.heap[0].key <= now
    requires HeapInv(s) && TopMoved(s, s1, s.heap[0].item) && NoDup(s.io)
    requires forall t :: t in s.th && s.th[t].sleepFlag ==> HasItem(s.heap, t)
    requires Woken(s1, s', now, rest)
    ensures Woken(s, s', now, [s.heap[0].item] + rest)
  {
    var t := s.heap[0].item;
    DueAfterTop(s, s1, now, rest);
    assert t !in rest;
    MovedAfterTop(s, s1, s', t, rest);
  }

  lemma {:induction false} WakeupExact<T>(s: Sched<T>, now: int) returns (due: seq<T>)
    requires Quiet(s)
    ensures Quiet(Wakeup(s, now))
    ensures Woken(s, Wakeup(s, now), now, due)
    decreases |s.heap|
  {
    hide Inv;
    if s.heap == [] || s.heap[0].key > now {
      due := [];
      NoneDue(s, now);
    } else {
      WakeTopKeeps(s);
      var rest := WakeupExact(WakeTop(s), now);
      due := [s.heap[0].item] + rest;
      SleepersInHeap(s);
      WokenAfterTop(s, WakeTop(s), Wakeup(s, now), now, rest);
    }
  }

  lemma SleepersInHeap<T>(s: Sched<T>)
    requires Inv(s)
    ensures forall t :: t in s.th ==> (s.th[t].sleepFlag <==> HasItem(s.heap, t))
    ensures forall i :: 0 <= i < |s.heap| ==> s.heap[i].item in s.th && s.th[s.heap[i].item].sleepFlag
    ensures HeapInv(s) && NoDup(s.io)
  {
    forall t | t in s.th
      ensures s.th[t].sleepFlag <==> HasItem(s.heap, t)
    {
      assert Placed(s, t);
    }
    forall i | 0 <= i < |s.heap|
      ensures s.heap[i].item in s.th && s.th[s.heap[i].item].sleepFlag
    {
      assert s.heap[i] in s.heap;
      assert HasItem(s.heap, s.heap[i].item);
      assert Placed(s, s.heap[i].item);
    }
  }

  // ---------- deleting reclaimed coroutines ----------

  /** NoteDestroyed and delete of a coroutine that is linked nowhere. */
  function Destroy<T(==)>(s: Sched<T>, t: T): Sched<T>
  {
    s.(th := s.th - {t}, total := if s.total > 0 then s.total - 1 else 0)
  }

  /** The loop in ReapReclaim: n pops; the current coroutine is held back, the others are deleted. */
  function ReapLoop<T(==)>(s: Sched<T>, n: nat, hold: Option<T>): (r: (Sched<T>, Option<T>))
    requires Inv(s)
    decreases n
  {
    if n == 0 || s.reclaim == [] then (s, hold)
    else
      ReclaimHeadKeeps(s);
      var t := s.reclaim[0];
      var s1 := TailqRemove(s, InReclaim, t);
      if t == s.active then ReapLoop(s1, n - 1, Some(t))
      else ReapLoop(Destroy(s1, t), n - 1, hold)
  }

  lemma ReclaimHeadKeeps<T>(s: Sched<T>)
    requires Inv(s) && s.reclaim != []
    ensures var t := s.reclaim[0];
            && t in s.th && s.th[t].link == InReclaim
            && TailqRemove(s, InReclaim, t)
               == s.(reclaim := s.reclaim[1..], th := s.th[t := s.th[t].(link := Unlinked)])
            && Inv(TailqRemove(s, InReclaim, t))
            && (t != s.active ==> Inv(Destroy(TailqRemove(s, InReclaim, t), t)))
            && t !in s.reclaim[1..] && t !in s.run && t !in s.io && t !in s.pend && t !in s.idle
            && !s.th[t].sleepFlag && t != s.daemon && t != s.primo
  {
    var t := s.reclaim[0];
    assert Placed(s, t);
    assert s.reclaim == [t] + s.reclaim[1..];
    var s1 := TailqRemove(s, InReclaim, t);
    forall x | x in s1.th
      ensures Placed(s1, x)
    {
      assert Placed(s, x);
    }
    MoveKeeps(s, s1, t);
    if t != s.active {
      assert TreeAt(s, t);
      assert Placed(s1, t);
      DestroyKeeps(s1, t);
    }
  }

  /** Deleting a coroutine that is linked nowhere and has no relatives keeps the invariant. */
  lemma DestroyKeeps<T>(s: Sched<T>, t: T)
    requires Inv(s) && Free(s, t) && !HasItem(s.heap, t) && t !in s.idle
    requires t != s.active && t != s.daemon && t != s.primo
    requires s.th[t].subs == [] && s.th[t].parent.None?
    ensures Inv(Destroy(s, t))
  {
    var s' := Destroy(s, t);
    assert Placed(s, t);
    forall x | x in s'.th
      ensures Placed(s', x)
    {
      assert Placed(s, x);
    }
    forall n | n in s'.heap
      ensures n.item in s'.th
    {
      var i :| 0 <= i < |s.heap| && s.heap[i] == n;
    }
    TreeWithout(s, t);
    assert s'.th.Keys - {s.daemon, s.primo} == s.th.Keys - {s.daemon, s.primo} - {t};
  }

  lemma TreeWithout<T>(s: Sched<T>, t: T)
    requires TreeInv(s) && t in s.th && s.th[t].subs == [] && s.th[t].parent.None?
    ensures TreeInv(Destroy(s, t))
  {
    var s' := Destroy(s, t);
    forall x | x in s'.th
      ensures TreeAt(s', x)
    {
      assert TreeAt(s, x);
    }
  }

  function ReapReclaim<T(==)>(s: Sched<T>): Sched<T>
    requires Inv(s)
  {
    ReapLoopExact(s, |s.reclaim|, None);
    var (s1, hold) := ReapLoop(s, |s.reclaim|, None);
    if hold.Some? then TailqInsertTail(s1, InReclaim, hold.value) else s1
  }

  /** Every coroutine of the reclaim queue but the active one is gone; the rest is as before. */
  ghost predicate Emptied<T>(s: Sched<T>, s1: Sched<T>)
  {
    && s1 == s.(reclaim := [], th := s1.th, total := s1.total)
    && (forall t :: t in s1.th ==> t in s.th)
    && (forall t :: t in s.th ==> (t in s1.th <==> t !in s.reclaim || t == s.active))
    && (forall t :: t in s1.th ==> s1.th[t] == if t in s.reclaim then s.th[t].(link := Unlinked) else s.th[t])
  }

  lemma EmptiedAfterHead<T>(s: Sched<T>, s1: Sched<T>, s2: Sched<T>)
    requires s.reclaim != [] && s.reclaim[0] in s.th && s.reclaim[0] !in s.reclaim[1..]
    requires var t := s.reclaim[0];
             s1 == s.(reclaim := s.reclaim[1..], total := s1.total,
                      th := if t == s.active then s.th[t := s.th[t].(link := Unlinked)] else s.th - {t})
    requires Emptied(s1, s2)
    ensures Emptied(s, s2)
  {
    assert s.reclaim == [s.reclaim[0]] + s.reclaim[1..];
    forall t | t in s.th
      ensures t in s2.th <==> t !in s.reclaim || t == s.active
    {
      assert t in s1.th <==> t != s.reclaim[0] || t == s.active;
    }
  }

  lemma {:induction false} ReapLoopExact<T>(s: Sched<T>, n: nat, hold: Option<T>)
    requires Inv(s) && n == |s.reclaim|
    ensures var (s1, h) := ReapLoop(s, n, hold);
            && Inv(s1) && Emptied(s, s1)
            && h == if s.active in s.reclaim then Some(s.active) else hold
    decreases n
  {
    hide Inv;
    if n > 0 {
      ReclaimHeadKeeps(s);
      var t := s.reclaim[0];
      var s1 := TailqRemove(s, InReclaim, t);
      assert s.reclaim == [t] + s.reclaim[1..];
      if t == s.active {
        ReapLoopExact(s1, n - 1, Some(t));
        EmptiedAfterHead(s, s1, ReapLoop(s1, n - 1, Some(t)).0);
      } else {
        assert s.th[t := s.th[t].(link := Unlinked)] - {t} == s.th - {t};
        ReapLoopExact(Destroy(s1, t), n - 1, hold);
        EmptiedAfterHead(s, Destroy(s1, t), ReapLoop(Destroy(s1, t), n - 1, hold).0);
      }
    }
  }

  /** ReapReclaim deletes exactly the reclaimed coroutines other than the active one: at most the
      active one is left, and nobody on a queue, in the heap or in the pool is touched. */
  ghost predicate Reaped<T>(s: Sched<T>, s': Sched<T>)
  {
    && s' == s.(reclaim := if s.active in s.reclaim then [s.active] else [], th := s'.th, total := s'.total)
    && (forall t :: t in s'.th ==> t in s.th && s'.th[t] == s.th[t])
    && (forall t :: t in s.th ==> (t in s'.th <==> t !in s.reclaim || t == s.active))
  }

  /** Putting the active coroutine back on the emptied reclaim queue. */
  lemma HoldBack<T>(s: Sched<T>)
    requires Inv(s) && s.reclaim == [] && Free(s, s.active) && s.active !in s.idle
    requires s.active != s.daemon && s.active != s.primo
    requires s.th[s.active].subs == [] && s.th[s.active].parent.None?
    ensures var t := s.active; var s' := TailqInsertTail(s, InReclaim, t);
            && s' == s.(reclaim := [t], th := s.th[t := s.th[t].(link := InReclaim)])
            && Inv(s')
  {
    var t := s.active;
    var s' := TailqInsertTail(s, InReclaim, t);
    assert Placed(s, t);
    assert s' == s.(reclaim := [t], th := s.th[t := s.th[t].(link := InReclaim)]);
    forall x | x in s'.th
      ensures Placed(s', x)
    {
      assert Placed(s, x);
    }
    MoveKeeps(s, s', t);
  }

  lemma ReclaimedFacts<T>(s: Sched<T>, t: T)
    requires Inv(s) && t in s.reclaim
    ensures t in s.th && s.th[t].link == InReclaim && !s.th[t].sleepFlag
    ensures t != s.daemon && t != s.primo && t !in s.idle
    ensures s.th[t].subs == [] && s.th[t].parent.None?
  {
    assert Placed(s, t) && TreeAt(s, t);
  }

  lemma ReapExact<T>(s: Sched<T>)
    requires Inv(s)
    ensures Inv(ReapReclaim(s)) && Reaped(s, ReapReclaim(s))
  {
    hide Inv;
    ReapLoopExact(s, |s.reclaim|, None);
    var (s1, hold) := ReapLoop(s, |s.reclaim|, None);
    forall t | t in s.reclaim
      ensures t in s.th && s.th[t].link == InReclaim
    {
      ReclaimedFacts(s, t);
    }
    if s.active in s.reclaim {
      ReclaimedFacts(s, s.active);
      HoldBack(s1);
    }
  }

  // ---------- the switch ----------

  function PopRunable<T(==)>(s: Sched<T>): Sched<T>
    requires s.run != [] && s.run[0] in s.th && s.th[s.run[0]].link == InRun
  {
    var t := s.run[0];
    var s1 := TailqRemove(s, InRun, t);
    SetRec(s1, t, s1.th[t].(runFlag := false))
  }

  lemma PopRunableKeeps<T>(s: Sched<T>)
    requires Inv(s) && s.run != []
    ensures var t := s.run[0];
            && t in s.th && s.th[t].link == InRun
            && PopRunable(s) == s.(run := s.run[1..], th := s.th[t := s.th[t].(runFlag := false, link := Unlinked)])
            && Inv(PopRunable(s)) && Loose(PopRunable(s), t)
  {
    hide IsHeap, TreeInv;
    var t := s.run[0];
    assert Placed(s, t);
    assert s.run == [t] + s.run[1..];
    var s1 := PopRunable(s);
    SetTwice(s.th, t, s.th[t].(link := Unlinked), s.th[t].(runFlag := false, link := Unlinked));
    forall x | x in s1.th
      ensures Placed(s1, x)
    {
      assert Placed(s, x);
    }
    MoveKeeps(s, s1, t);
  }

  /** Yield of the active coroutine: the head of the run queue, or the daemon, becomes active. */
  function Yield<T(==)>(s: Sched<T>): Sched<T>
    requires Inv(s)
  {
    ReapExact(s);
    var s1 := ReapReclaim(s);
    if s1.run == [] then s1.(active := s1.daemon)
    else
      PopRunableKeeps(s1);
      PopRunable(s1).(active := s1.run[0])
  }

  /** After a switch the head of the run queue, or the daemon, is active; the run queue loses its head
      and nothing else; only reclaimed coroutines disappear. */
  ghost predicate Switched<T>(s: Sched<T>, s': Sched<T>)
  {
    && s'.active == (if s.run == [] then s.daemon else s.run[0])
    && s' == s.(run := if s.run == [] then [] else s.run[1..],
                reclaim := if s.active in s.reclaim then [s.active] else [],
                th := s'.th, total := s'.total, active := s'.active)
    && (forall t :: t in s'.th ==>
         t in s.th && s'.th[t] == if s.run != [] && t == s.run[0]
                                    then s.th[t].(runFlag := false, link := Unlinked) else s.th[t])
    && (forall t :: t in s.th ==> (t in s'.th <==> t !in s.reclaim || t == s.active))
  }

  lemma YieldExact<T>(s: Sched<T>)
    requires Inv(s)
    ensures Quiet(Yield(s)) && Switched(s, Yield(s))
  {
    ReapExact(s);
    var s1 := ReapReclaim(s);
    if s1.run == [] {
      ActivateKeeps(s1, s1.daemon);
    } else {
      PopRunableKeeps(s1);
      ActivateKeeps(PopRunable(s1), s1.run[0]);
    }
  }

  lemma ActivateKeeps<T>(s: Sched<T>, t: T)
    requires Inv(s) && Free(s, t) && t !in s.idle
    ensures Quiet(s.(active := t))
  {
    var s' := s.(active := t);
    forall x | x in s'.th
      ensures Placed(s', x) && TreeAt(s', x)
    {
      assert Placed(s, x) && TreeAt(s, x);
    }
  }
}
