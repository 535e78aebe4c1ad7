/** What every scheduler operation keeps: the flag bits, the queue links and the sleep heap agree. */
module SchedInvariant {
  import opened HeapModel
  import opened Queues
  import opened SchedModel

  /** The three records of where coroutine t is: links, flags and heap membership. */
  ghost predicate Placed<T>(s: Sched<T>, t: T)
    requires t in s.th
  {
    var r := s.th[t];
    && (t in s.run <==> r.link == InRun)
    && (t in s.io <==> r.link == InIo)
    && (t in s.pend <==> r.link == InPend)
    && (t in s.reclaim <==> r.link == InReclaim)
    && (r.runFlag <==> r.link == InRun)
    && (r.ioFlag <==> r.link == InIo)
    && (r.pendFlag <==> r.link == InPend)
    && (r.sleepFlag <==> HasItem(s.heap, t))
    && (r.link == InIo ==> r.sleepFlag)
    && (r.sleepFlag ==> r.link == InIo || r.link == Unlinked)
  }

  ghost predicate HeapInv<T>(s: Sched<T>)
  {
    && IsHeap(s.heap) && Distinct(s.heap) && |s.heap| <= s.cap
    && (forall n :: n in s.heap ==> n.item in s.th && n.key == s.th[n.item].wakeup)
  }

  ghost predicate QueueInv<T>(s: Sched<T>)
  {
    && NoDup(s.run) && NoDup(s.io) && NoDup(s.pend) && NoDup(s.reclaim)
    && (forall t :: t in s.run ==> t in s.th)
    && (forall t :: t in s.io ==> t in s.th)
    && (forall t :: t in s.pend ==> t in s.th)
    && (forall t :: t in s.reclaim ==> t in s.th)
    && (forall t {:trigger Placed(s, t)} :: t in s.th ==> Placed(s, t))
  }

  /** Linked nowhere and not asleep. */
  ghost predicate Free<T>(s: Sched<T>, t: T)
  {
    t in s.th && s.th[t].link == Unlinked && !s.th[t].sleepFlag
  }

  /** Idle coroutines are free, distinct and no more than the limit; the total counts every
      coroutine except the daemon and the primordial one. */
  ghost predicate PoolInv<T>(s: Sched<T>)
  {
    && NoDup(s.idle) && |s.idle| <= s.maxFree
    && (forall t :: t in s.idle ==> Free(s, t) && t != s.daemon && t != s.primo)
    && s.primo in s.th && s.primo !in s.reclaim && s.primo != s.daemon
    && s.total == |s.th.Keys - {s.daemon, s.primo}|
  }

  /** The tree of sub-threads at t: flag, parent pointer and the parent's list agree, and a
      coroutine that has a parent or children is neither idle nor waiting to be deleted. */
  ghost predicate TreeAt<T>(s: Sched<T>, t: T)
    requires t in s.th
  {
    var r := s.th[t];
    && NoDup(r.subs)
    && (r.subFlag <==> r.parent.Some?)
    && (r.parent.Some? ==> r.parent.value in s.th && t in s.th[r.parent.value].subs)
    && (forall c :: c in r.subs ==> c in s.th && s.th[c].parent == Some(t))
    && (r.subs != [] || r.parent.Some? ==> t !in s.idle && r.link != InReclaim)
  }

  ghost predicate TreeInv<T>(s: Sched<T>)
  {
    forall t {:trigger TreeAt(s, t)} :: t in s.th ==> TreeAt(s, t)
  }

  ghost predicate Inv<T>(s: Sched<T>)
  {
    && QueueInv(s) && HeapInv(s) && PoolInv(s) && TreeInv(s)
    && s.active in s.th
    && Free(s, s.daemon)
  }

  /** A coroutine that may be put on a queue: free, alive and not the daemon. */
  ghost predicate Loose<T>(s: Sched<T>, t: T)
  {
    Free(s, t) && t != s.daemon && t !in s.idle
  }

  /** Between two operations the active coroutine is on no queue, asleep nowhere and not idle. */
  ghost predicate Quiet<T>(s: Sched<T>)
  {
    Inv(s) && Free(s, s.active) && s.active !in s.idle
  }

  /** The states differ only in where coroutine t is. */
  ghost predicate Moves<T>(s: Sched<T>, s': Sched<T>, t: T)
  {
    && t in s.th && t in s'.th
    && s' == s.(run := s'.run, io := s'.io, pend := s'.pend, reclaim := s'.reclaim, heap := s'.heap,
                th := s.th[t := s'.th[t]])
    && s'.th[t] == s.th[t].(ioFlag := s'.th[t].ioFlag, sleepFlag := s'.th[t].sleepFlag,
                            runFlag := s'.th[t].runFlag, pendFlag := s'.th[t].pendFlag,
                            link := s'.th[t].link)
  }

  /** Inv at one coroutine, for proofs that hide Inv. */
  lemma At<T>(s: Sched<T>, t: T)
    requires Inv(s) && t in s.th
    ensures Placed(s, t) && TreeAt(s, t)
  {
    assert Placed(s, t) && TreeAt(s, t);
  }

  lemma MoveKeeps<T>(s: Sched<T>, s': Sched<T>, t: T)
    requires Inv(s) && Moves(s, s', t) && QueueInv(s') && HeapInv(s')
    requires t !in s.idle && t != s.daemon
    requires t != s.primo || s'.reclaim == s.reclaim
    requires s'.th[t].link == InReclaim ==> s.th[t].link == InReclaim || (s.th[t].subs == [] && s.th[t].parent.None?)
    ensures Inv(s')
  {
    assert s'.th.Keys == s.th.Keys;
    forall x | x in s'.th
      ensures TreeAt(s', x)
    {
      assert TreeAt(s, x);
    }
    assert Placed(s', s.primo) && Placed(s, s.primo);
  }

  lemma SetTwice<K, V>(m: map<K, V>, k: K, v: V, w: V)
    ensures m[k := v][k := w] == m[k := w]
  {
  }

  // ---------- the heap ----------

  lemma HeapDeleteMember<T>(h: seq<Node<T>>, t: T)
    requires IsHeap(h) && Distinct(h) && HasItem(h, t)
    ensures var pos := IndexOf(h, t);
            && 1 <= pos <= |h| && h[pos - 1].item == t
            && IsHeap(DeleteAt(h, pos)) && Distinct(DeleteAt(h, pos))
            && (forall n :: n in DeleteAt(h, pos) <==> n in h && n.item != t)
            && (forall x :: HasItem(DeleteAt(h, pos), x) <==> HasItem(h, x) && x != t)
  {
    var pos := IndexOf(h, t);
    hide IsHeap, DeleteAt, HasItem;
    DeleteMembers(h, pos);
    DeleteRefinesRemove(h, pos);
    forall n
      ensures n in DeleteAt(h, pos) <==> n in h && n.item != t
    {
      if n in h && n.item == t {
        OneNodePerItem(h, n, h[pos - 1]);
      }
    }
  }

  lemma OneNodePerItem<T>(h: seq<Node<T>>, m: Node<T>, n: Node<T>)
    requires Distinct(h) && m in h && n in h && m.item == n.item
    ensures m == n
  {
    var i :| 0 <= i < |h| && h[i] == m;
    var j :| 0 <= j < |h| && h[j] == n;
    assert i == j;
  }

  /** RemoveSleep of a sleeper takes exactly it out of the heap. */
  lemma RemoveSleepEffect<T>(s: Sched<T>, t: T) returns (h: seq<Node<T>>)
    requires IsHeap(s.heap) && Distinct(s.heap) && t in s.th && HasItem(s.heap, t)
    ensures RemoveSleep(s, t) == s.(heap := h, th := s.th[t := s.th[t].(sleepFlag := false)])
    ensures h == DeleteAt(s.heap, IndexOf(s.heap, t))
    ensures IsHeap(h) && Distinct(h) && |h| == |s.heap| - 1
    ensures forall n :: n in h <==> n in s.heap && n.item != t
    ensures forall x :: HasItem(h, x) <==> HasItem(s.heap, x) && x != t
  {
    HeapDeleteMember(s.heap, t);
    h := DeleteAt(s.heap, IndexOf(s.heap, t));
  }

  /** InsertSleep of an outsider, with room in the heap, adds exactly it. */
  lemma InsertSleepEffect<T>(s: Sched<T>, t: T) returns (h: seq<Node<T>>)
    requires IsHeap(s.heap) && Distinct(s.heap) && t in s.th && !HasItem(s.heap, t) && |s.heap| < s.cap
    ensures InsertSleep(s, t) == s.(heap := h, th := s.th[t := s.th[t].(sleepFlag := true)])
    ensures h == Push(s.heap, Node(t, s.th[t].wakeup))
    ensures IsHeap(h) && Distinct(h) && |h| == |s.heap| + 1
    ensures forall n :: n in h <==> n in s.heap || n == Node(t, s.th[t].wakeup)
    ensures forall x :: HasItem(h, x) <==> HasItem(s.heap, x) || x == t
  {
    var n := Node(t, s.th[t].wakeup);
    h := Push(s.heap, n);
    PushMembers(s.heap, n);
    PushRefinesAdd(s.heap, n);
  }

  // ---------- single operations ----------

  lemma InsertRunableKeeps<T>(s: Sched<T>, t: T)
    requires Inv(s) && Loose(s, t) && t != s.active
    ensures InsertRunable(s, t)
         == s.(run := s.run + [t], th := s.th[t := s.th[t].(runFlag := true, link := InRun)])
    ensures Inv(InsertRunable(s, t))
  {
    hide IsHeap, PoolInv, TreeInv;
    var s1 := s.(run := s.run + [t], th := s.th[t := s.th[t].(runFlag := true, link := InRun)]);
    assert Placed(s, t);
    AppendKeepsNoDup(s.run, t);
    assert InsertRunable(s, t) == s1;
    forall x | x in s1.th
      ensures Placed(s1, x)
    {
      assert Placed(s, x);
    }
    MoveKeeps(s, s1, t);
  }

  lemma RemoveSleepKeeps<T>(s: Sched<T>, t: T)
    requires Inv(s) && t in s.th && s.th[t].sleepFlag && s.th[t].link == Unlinked
    ensures Inv(RemoveSleep(s, t))
    ensures Free(RemoveSleep(s, t), t)
  {
    hide RemoveSleep, IsHeap, DeleteAt, TreeInv;
    assert Placed(s, t);
    var h := RemoveSleepEffect(s, t);
    var s1 := RemoveSleep(s, t);
    forall x | x in s1.th
      ensures Placed(s1, x)
    {
      assert Placed(s, x);
    }
    MoveKeeps(s, s1, t);
  }

  /** RemoveIOWait of an IO waiter takes exactly it out of the IO queue and the heap. */
  lemma RemoveIOWaitEffect<T>(s: Sched<T>, t: T) returns (h: seq<Node<T>>)
    requires IsHeap(s.heap) && Distinct(s.heap) && t in s.th && s.th[t].link == InIo && HasItem(s.heap, t)
    ensures RemoveIOWait(s, t)
         == s.(io := Drop(s.io, t), heap := h,
               th := s.th[t := s.th[t].(ioFlag := false, sleepFlag := false, link := Unlinked)])
    ensures h == DeleteAt(s.heap, IndexOf(s.heap, t))
    ensures IsHeap(h) && Distinct(h) && |h| == |s.heap| - 1
    ensures forall n :: n in h <==> n in s.heap && n.item != t
    ensures forall x :: HasItem(h, x) <==> HasItem(s.heap, x) && x != t
  {
    var s0 := TailqRemove(SetRec(s, t, s.th[t].(ioFlag := false)), InIo, t);
    var r0 := s.th[t].(ioFlag := false, link := Unlinked);
    SetTwice(s.th, t, s.th[t].(ioFlag := false), r0);
    assert s0 == s.(io := Drop(s.io, t), th := s.th[t := r0]);
    h := RemoveSleepEffect(s0, t);
    SetTwice(s.th, t, r0, r0.(sleepFlag := false));
  }

  lemma RemoveIOWaitKeeps<T>(s: Sched<T>, t: T)
    requires Inv(s) && t in s.th && s.th[t].link == InIo
    ensures Inv(RemoveIOWait(s, t))
    ensures Free(RemoveIOWait(s, t), t)
    ensures RemoveIOWait(s, t).io == Drop(s.io, t)
  {
    hide RemoveIOWait, IsHeap, DeleteAt, TreeInv;
    assert Placed(s, t);
    var h := RemoveIOWaitEffect(s, t);
    DropKeepsTheRest(s.io, t);
    var s1 := RemoveIOWait(s, t);
    forall x | x in s1.th
      ensures Placed(s1, x)
    {
      assert Placed(s, x);
    }
    MoveKeeps(s, s1, t);
  }

  lemma InsertSleepKeeps<T>(s: Sched<T>, t: T)
    requires Inv(s) && Loose(s, t) && |s.heap| < s.cap
    ensures Inv(InsertSleep(s, t))
  {
    hide InsertSleep, IsHeap, Push, PoolInv, TreeInv;
    assert Placed(s, t);
    var h := InsertSleepEffect(s, t);
    var s1 := InsertSleep(s, t);
    forall x | x in s1.th
      ensures Placed(s1, x)
    {
      assert Placed(s, x);
    }
    MoveKeeps(s, s1, t);
  }

  /** InsertIOWait of an outsider, with room in the heap, adds exactly it to the IO queue and the heap. */
  lemma InsertIOWaitEffect<T>(s: Sched<T>, t: T) returns (h: seq<Node<T>>)
    requires IsHeap(s.heap) && Distinct(s.heap) && t in s.th && !HasItem(s.heap, t) && |s.heap| < s.cap
    requires s.th[t].link == Unlinked
    ensures InsertIOWait(s, t)
         == s.(io := s.io + [t], heap := h,
               th := s.th[t := s.th[t].(ioFlag := true, sleepFlag := true, link := InIo)])
    ensures h == Push(s.heap, Node(t, s.th[t].wakeup))
    ensures IsHeap(h) && Distinct(h) && |h| == |s.heap| + 1
    ensures forall n :: n in h <==> n in s.heap || n == Node(t, s.th[t].wakeup)
    ensures forall x :: HasItem(h, x) <==> HasItem(s.heap, x) || x == t
  {
    var s0 := TailqInsertTail(SetRec(s, t, s.th[t].(ioFlag := true)), InIo, t);
    var r0 := s.th[t].(ioFlag := true, link := InIo);
    SetTwice(s.th, t, s.th[t].(ioFlag := true), r0);
    assert s0 == s.(io := s.io + [t], th := s.th[t := r0]);
    h := InsertSleepEffect(s0, t);
    SetTwice(s.th, t, r0, r0.(sleepFlag := true));
  }

  lemma InsertIOWaitKeeps<T>(s: Sched<T>, t: T)
    requires Inv(s) && Loose(s, t) && |s.heap| < s.cap
    ensures Inv(InsertIOWait(s, t))
  {
    hide InsertIOWait, IsHeap, Push, PoolInv, TreeInv;
    assert Placed(s, t);
    var h := InsertIOWaitEffect(s, t);
    AppendKeepsNoDup(s.io, t);
    var s1 := InsertIOWait(s, t);
    forall x | x in s1.th
      ensures Placed(s1, x)
    {
      assert Placed(s, x);
    }
    MoveKeeps(s, s1, t);
  }

  lemma InsertPendKeeps<T>(s: Sched<T>, t: T)
    requires Inv(s) && Loose(s, t)
    ensures Inv(InsertPend(s, t))
  {
    hide IsHeap, PoolInv, TreeInv;
    assert Placed(s, t);
    var s1 := InsertPend(s, t);
    assert s1 == s.(pend := s.pend + [t], th := s.th[t := s.th[t].(pendFlag := true, link := InPend)]);
    AppendKeepsNoDup(s.pend, t);
    forall x | x in s1.th
      ensures Placed(s1, x)
    {
      assert Placed(s, x);
    }
    MoveKeeps(s, s1, t);
  }

  lemma LeavePendEffect<T>(s: Sched<T>, t: T)
    requires t in s.th && s.th[t].link == InPend
    ensures TailqRemove(SetRec(s, t, s.th[t].(pendFlag := false)), InPend, t)
         == s.(pend := Drop(s.pend, t), th := s.th[t := s.th[t].(pendFlag := false, link := Unlinked)])
  {
    SetTwice(s.th, t, s.th[t].(pendFlag := false), s.th[t].(pendFlag := false, link := Unlinked));
  }

  lemma LeavePendKeeps<T>(s: Sched<T>, t: T)
    requires Inv(s) && t in s.th && s.th[t].link == InPend
    ensures Inv(s.(pend := Drop(s.pend, t), th := s.th[t := s.th[t].(pendFlag := false, link := Unlinked)]))
  {
    hide IsHeap, TreeInv;
    assert Placed(s, t);
    var s1 := s.(pend := Drop(s.pend, t), th := s.th[t := s.th[t].(pendFlag := false, link := Unlinked)]);
    DropKeepsTheRest(s.pend, t);
    forall x | x in s1.th
      ensures Placed(s1, x)
    {
      assert Placed(s, x);
    }
    MoveKeeps(s, s1, t);
  }

  lemma UnpendKeeps<T>(s: Sched<T>, t: T)
    requires Inv(s) && t in s.th && s.th[t].link == InPend && t != s.active
    ensures Inv(Unpend(s, t))
    ensures Unpend(s, t).run == s.run + [t]
  {
    assert Placed(s, t);
    LeavePendEffect(s, t);
    LeavePendKeeps(s, t);
    InsertRunableKeeps(TailqRemove(SetRec(s, t, s.th[t].(pendFlag := false)), InPend, t), t);
  }
}
