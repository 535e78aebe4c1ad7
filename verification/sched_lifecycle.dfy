/** Sleeping, pending, notification, sub-threads, stack reuse: the calls coroutines make. */
module SchedLifecycle {
  import opened HeapModel
  import opened Queues
  import opened SchedModel
  import opened SchedInvariant
  import opened SchedOps

  // ---------- blocking calls ----------

  /** StThreadSchedule::Sleep. */
  function Sleep<T(==)>(s: Sched<T>, t: T): Sched<T>
    requires Quiet(s) && t in s.th
    requires |s.heap| < s.cap && Loose(s, t)
  {
    InsertSleepKeeps(s, t);
    var s1 := InsertSleep(s, t);
    if t == s.active then Yield(s1) else s1
  }

  /** StThreadSchedule::Pend. */
  function Pend<T(==)>(s: Sched<T>, t: T): Sched<T>
    requires Quiet(s) && Loose(s, t)
  {
    InsertPendKeeps(s, t);
    var s1 := InsertPend(s, t);
    if t == s.active then Yield(s1) else s1
  }

  /** SetWakeupTime of a coroutine that is not in the heap. */
  function SetWakeup<T(==)>(s: Sched<T>, t: T, deadline: int): Sched<T>
    requires t in s.th
  {
    SetRec(s, t, s.th[t].(wakeup := deadline))
  }

  /** A change of wakeup time, sticky bit or type of one coroutine. */
  ghost predicate Relabels<T>(s: Sched<T>, t: T, r: Rec<T>)
  {
    && t in s.th
    && r == s.th[t].(wakeup := r.wakeup, notified := r.notified, kind := r.kind)
    && (s.th[t].sleepFlag ==> r.wakeup == s.th[t].wakeup)
  }

  lemma RelabelTree<T>(s: Sched<T>, t: T, r: Rec<T>)
    requires TreeInv(s) && Relabels(s, t, r)
    ensures TreeInv(SetRec(s, t, r))
  {
    var s' := SetRec(s, t, r);
    forall x | x in s'.th
      ensures TreeAt(s', x)
    {
      assert TreeAt(s, x);
    }
  }

  lemma RelabelHeap<T>(s: Sched<T>, t: T, r: Rec<T>)
    requires Inv(s) && Relabels(s, t, r)
    ensures HeapInv(SetRec(s, t, r))
  {
    SleepersInHeap(s);
    var s' := SetRec(s, t, r);
    forall n | n in s'.heap
      ensures n.item in s'.th && n.key == s'.th[n.item].wakeup
    {
      var i :| 0 <= i < |s.heap| && s.heap[i] == n;
    }
  }

  lemma SetRecKeeps<T>(s: Sched<T>, t: T, r: Rec<T>)
    requires Inv(s) && Relabels(s, t, r)
    ensures Inv(SetRec(s, t, r))
    ensures Quiet(s) ==> Quiet(SetRec(s, t, r))
  {
    var s' := SetRec(s, t, r);
    assert s'.th.Keys == s.th.Keys;
    RelabelTree(s, t, r);
    RelabelHeap(s, t, r);
    forall x | x in s'.th
      ensures Placed(s', x)
    {
      assert Placed(s, x);
    }
  }

  /** Notify sets the sticky bit, and makes a sleeper or an IO waiter runnable, once. */
  lemma NotifyExact<T>(s: Sched<T>, t: T)
    requires Quiet(s) && t in s.th
    ensures NotifyReady(s, t)
    ensures Quiet(Notify(s, t)) && Notified(s, Notify(s, t), t)
  {
    assert Placed(s, t);
    var s1 := SetRec(s, t, s.th[t].(notified := true));
    SetRecKeeps(s, t, s.th[t].(notified := true));
    var r := s1.th[t];
    if s.th[t].ioFlag {
      RemoveIOWaitKeeps(s1, t);
      var h := RemoveIOWaitEffect(s1, t);
      InsertRunableKeeps(RemoveIOWait(s1, t), t);
      SetTwice(s1.th, t, r.(ioFlag := false, sleepFlag := false, link := Unlinked),
               r.(ioFlag := false, sleepFlag := false, runFlag := true, link := InRun));
      SetTwice(s.th, t, r, r.(ioFlag := false, sleepFlag := false, runFlag := true, link := InRun));
      DropKeepsTheRest(s.io, t);
    } else if s.th[t].sleepFlag {
      RemoveSleepKeeps(s1, t);
      var h := RemoveSleepEffect(s1, t);
      InsertRunableKeeps(RemoveSleep(s1, t), t);
      SetTwice(s1.th, t, r.(sleepFlag := false), r.(sleepFlag := false, runFlag := true, link := InRun));
      SetTwice(s.th, t, r, r.(sleepFlag := false, runFlag := true, link := InRun));
    }
  }

  ghost predicate Notified<T>(s: Sched<T>, s': Sched<T>, t: T)
    requires t in s.th
  {
    var r := s.th[t].(notified := true);
    if s.th[t].sleepFlag then
      && s' == s.(run := s.run + [t], io := s'.io, heap := s'.heap,
                  th := s.th[t := r.(ioFlag := false, sleepFlag := false, runFlag := true, link := InRun)])
      && (forall x :: x in s'.io ==> x in s.io && x != t)
      && (forall n :: n in s'.heap ==> n in s.heap && n.item != t)
      && (forall n :: n in s.heap && n.item != t ==> n in s'.heap)
    else s' == s.(th := s.th[t := r])
  }

  // ---------- sub-threads ----------

  /** p gets the children q, c gets a parent (or none). */
  function Relink<T(==)>(s: Sched<T>, p: T, q: seq<T>, c: T, parent: Option<T>): Sched<T>
    requires p in s.th && c in s.th
  {
    var s1 := SetRec(s, p, s.th[p].(subs := q));
    SetRec(s1, c, s1.th[c].(parent := parent, subFlag := parent.Some?))
  }

  /** AddSubStThread. */
  function AddSub<T(==)>(s: Sched<T>, p: T, c: T): Sched<T>
    requires p in s.th && c in s.th
  {
    if s.th[c].subFlag then s else Relink(s, p, s.th[p].subs + [c], c, Some(p))
  }

  /** RemoveSubStThread. */
  function RemoveSub<T(==)>(s: Sched<T>, p: T, c: T): Sched<T>
    requires p in s.th && c in s.th
  {
    if !s.th[c].subFlag then s else Relink(s, p, Drop(s.th[p].subs, c), c, None)
  }

  /** Only parents and children differ. */
  ghost predicate TreeMoves<T>(s: Sched<T>, s': Sched<T>)
  {
    && s' == s.(th := s'.th) && s'.th.Keys == s.th.Keys
    && forall t :: t in s.th ==>
         s'.th[t] == s.th[t].(parent := s'.th[t].parent, subs := s'.th[t].subs, subFlag := s'.th[t].subFlag)
  }

  lemma TreeMoveKeeps<T>(s: Sched<T>, s': Sched<T>)
    requires Inv(s) && TreeInv(s') && TreeMoves(s, s')
    ensures Inv(s')
    ensures Quiet(s) ==> Quiet(s')
  {
    forall x | x in s'.th
      ensures Placed(s', x)
    {
      assert Placed(s, x);
    }
  }

  lemma AddSubTree<T>(s: Sched<T>, p: T, c: T)
    requires TreeInv(s) && p in s.th && c in s.th && !s.th[c].subFlag
    requires p !in s.idle && c !in s.idle && s.th[p].link != InReclaim && s.th[c].link != InReclaim
    ensures TreeInv(AddSub(s, p, c))
  {
    var s' := AddSub(s, p, c);
    assert TreeAt(s, p) && TreeAt(s, c);
    AppendKeepsNoDup(s.th[p].subs, c);
    forall x | x in s'.th
      ensures TreeAt(s', x)
    {
      assert TreeAt(s, x);
    }
  }

  lemma RelinkMoves<T>(s: Sched<T>, p: T, q: seq<T>, c: T, parent: Option<T>)
    requires p in s.th && c in s.th
    ensures TreeMoves(s, Relink(s, p, q, c, parent))
  {
    var s1 := SetRec(s, p, s.th[p].(subs := q));
    var s' := Relink(s, p, q, c, parent);
    assert s1.th.Keys == s.th.Keys;
    assert s'.th.Keys == s1.th.Keys;
  }

  lemma AddSubKeeps<T>(s: Sched<T>, p: T, c: T)
    requires Inv(s) && p in s.th && c in s.th
    requires p !in s.idle && c !in s.idle && s.th[p].link != InReclaim && s.th[c].link != InReclaim
    ensures Inv(AddSub(s, p, c))
    ensures Quiet(s) ==> Quiet(AddSub(s, p, c))
  {
    if !s.th[c].subFlag {
      AddSubTree(s, p, c);
      RelinkMoves(s, p, s.th[p].subs + [c], c, Some(p));
      TreeMoveKeeps(s, AddSub(s, p, c));
    }
  }

  lemma RemoveSubTree<T>(s: Sched<T>, p: T, c: T)
    requires TreeInv(s) && c in s.th && s.th[c].parent == Some(p)
    ensures p in s.th && c in s.th[p].subs && s.th[c].subFlag
    ensures TreeInv(RemoveSub(s, p, c))
  {
    assert TreeAt(s, c);
    assert TreeAt(s, p);
    var s' := RemoveSub(s, p, c);
    DropKeepsTheRest(s.th[p].subs, c);
    forall x | x in s'.th
      ensures TreeAt(s', x)
    {
      assert TreeAt(s, x);
    }
  }

  lemma RemoveSubKeeps<T>(s: Sched<T>, p: T, c: T)
    requires Inv(s) && c in s.th && s.th[c].parent == Some(p)
    ensures p in s.th && c in s.th[p].subs
    ensures Inv(RemoveSub(s, p, c))
    ensures Quiet(s) ==> Quiet(RemoveSub(s, p, c))
    ensures RemoveSub(s, p, c).th[c].parent.None? && !RemoveSub(s, p, c).th[c].subFlag
    ensures p != c ==> RemoveSub(s, p, c).th[c].subs == s.th[c].subs
  {
    RemoveSubTree(s, p, c);
    RelinkMoves(s, p, Drop(s.th[p].subs, c), c, None);
    TreeMoveKeeps(s, RemoveSub(s, p, c));
  }

  /** The last child of a coroutine ends only while that coroutine is pended. */
  predicate ParentReady<T(==)>(s: Sched<T>, t: T)
    requires t in s.th
  {
    s.th[t].parent.Some? ==>
      var p := s.th[t].parent.value;
      && p in s.th && p != t
      && ((if s.th[t].subFlag then Drop(s.th[p].subs, t) else s.th[p].subs) == [] ==> s.th[p].link == InPend)
  }

  /** The parent, if any, loses the child; when none is left the parent is unpended. */
  function WakeupParent<T(==)>(s: Sched<T>, t: T): Sched<T>
    requires t in s.th && ParentReady(s, t)
  {
    if s.th[t].parent.None? then s
    else
      var p := s.th[t].parent.value;
      var s1 := RemoveSub(s, p, t);
      if s1.th[p].subs == [] then Unpend(s1, p) else s1
  }

  /** A parent without children left is last in the run queue; another one stays where it was. */
  lemma ParentIsQueued<T>(s: Sched<T>, t: T)
    requires t in s.th && ParentReady(s, t) && s.th[t].parent.Some?
    ensures var p := s.th[t].parent.value; var s' := WakeupParent(s, t);
            && p in s.th && p in s'.th
            && (if s'.th[p].subs == [] then s'.run == s.run + [p] && s'.th[p].link == InRun && !s'.th[p].pendFlag
                else s'.run == s.run && s'.th[p].link == s.th[p].link && s'.th[p].pendFlag == s.th[p].pendFlag)
  {
    hide Drop;
    var p := s.th[t].parent.value;
    var s1 := RemoveSub(s, p, t);
    if s1.th[p].subs == [] {
      LeavePendEffect(s1, p);
    }
  }

  lemma WakeupParentKeeps<T>(s: Sched<T>, t: T)
    requires Quiet(s) && t == s.active && ParentReady(s, t)
    ensures var s' := WakeupParent(s, t);
            && Quiet(s') && s'.th[t].subs == s.th[t].subs && s'.th[t].parent.None?
            && s'.active == t && s'.th.Keys == s.th.Keys && s'.daemon == s.daemon && s'.primo == s.primo
            && (s'.run == s.run || (s.th[t].parent.Some? && s'.run == s.run + [s.th[t].parent.value]))
  {
    hide Inv, Drop;
    if s.th[t].parent.Some? {
      var p := s.th[t].parent.value;
      RemoveSubKeeps(s, p, t);
      var s1 := RemoveSub(s, p, t);
      if s1.th[p].subs == [] {
        UnpendKeeps(s1, p);
      }
    }
  }

  // ---------- stack reuse ----------

  /** The flags of t name the queue it is linked in, and its parent is alive. */
  predicate LinksMatch<T(==)>(s: Sched<T>, t: T)
  {
    && t in s.th
    && (s.th[t].ioFlag ==> s.th[t].link == InIo)
    && (s.th[t].runFlag ==> s.th[t].link == InRun)
    && (s.th[t].pendFlag ==> s.th[t].link == InPend)
    && (s.th[t].parent.Some? ==> s.th[t].parent.value in s.th)
  }

  /** DetachForReuse: off every queue, out of the heap, away from the parent. */
  function Detach<T(==)>(s: Sched<T>, t: T): Sched<T>
    requires LinksMatch(s, t)
  {
    var s1 := if s.th[t].ioFlag then RemoveIOWait(s, t)
              else if s.th[t].sleepFlag then RemoveSleep(s, t) else s;
    var s2 := if s1.th[t].runFlag then RemoveRunable(s1, t) else s1;
    var s3 := if s2.th[t].pendFlag then TailqRemove(SetRec(s2, t, s2.th[t].(pendFlag := false)), InPend, t) else s2;
    if !s3.th[t].subFlag then s3
    else if s3.th[t].parent.Some? then RemoveSub(s3, s3.th[t].parent.value, t)
    else SetRec(s3, t, s3.th[t].(subFlag := false))
  }

  /** A coroutine as the constructor and Reset leave it. */
  function FreshRec<T>(): Rec<T>
  {
    Rec(false, false, false, false, false, Unlinked, 0, false, Normal, None, [])
  }

  /** StThread::Reset, with CPP_TAILQ_REMOVE_SELF. */
  function Reset<T(==)>(s: Sched<T>, t: T): Sched<T>
    requires t in s.th
  {
    var s1 := if s.th[t].link == Unlinked then s else TailqRemove(s, s.th[t].link, t);
    SetRec(s1, t, FreshRec())
  }

  /** Recycle up to the switch: into the pool, or onto the reclaim queue when the pool is full. */
  function Shelve<T(==)>(s: Sched<T>, t: T): Sched<T>
    requires LinksMatch(s, t)
  {
    var s1 := Reset(Detach(s, t), t);
    if |s1.idle| < s1.maxFree then s1.(idle := s1.idle + [t])
    else TailqInsertTail(s1, InReclaim, t)
  }

  /** The active coroutine can be recycled: an ordinary one whose children have all ended. */
  ghost predicate Recyclable<T>(s: Sched<T>)
  {
    && Quiet(s) && s.active != s.daemon && s.active != s.primo
    && s.th[s.active].subs == []
  }

  function Recycle<T(==)>(s: Sched<T>): Sched<T>
    requires Recyclable(s)
  {
    ShelveKeeps(s);
    Yield(Shelve(s, s.active))
  }

  /** Detaching the active coroutine only takes it from its parent. */
  lemma DetachActive<T>(s: Sched<T>)
    requires Recyclable(s)
    ensures LinksMatch(s, s.active)
    ensures var t := s.active; var s1 := Detach(s, t);
            && Recyclable(s1) && s1.active == t && s1.th[t].parent.None?
            && s1 == s.(th := s1.th) && s1.th.Keys == s.th.Keys
  {
    var t := s.active;
    assert Placed(s, t) && TreeAt(s, t);
    if s.th[t].parent.Some? {
      var p := s.th[t].parent.value;
      assert p != t;
      RemoveSubKeeps(s, p, t);
    }
  }

  lemma ResetKeeps<T>(s: Sched<T>)
    requires Recyclable(s) && s.th[s.active].parent.None?
    ensures var t := s.active;
            Reset(s, t) == s.(th := s.th[t := FreshRec()]) && Recyclable(Reset(s, t))
  {
    var t := s.active;
    var s' := Reset(s, t);
    assert s'.th.Keys == s.th.Keys;
    assert TreeAt(s, t) && Placed(s, t);
    forall x | x in s'.th
      ensures Placed(s', x)
    {
      assert Placed(s, x);
    }
    ResetTree(s, t);
    forall n | n in s'.heap
      ensures n.item in s'.th && n.key == s'.th[n.item].wakeup
    {
      var i :| 0 <= i < |s.heap| && s.heap[i] == n;
    }
  }

  lemma ResetTree<T>(s: Sched<T>, t: T)
    requires TreeInv(s) && t in s.th && s.th[t].subs == [] && s.th[t].parent.None?
    ensures TreeInv(s.(th := s.th[t := FreshRec()]))
  {
    var s' := s.(th := s.th[t := FreshRec()]);
    assert TreeAt(s, t);
    forall x | x in s'.th
      ensures TreeAt(s', x)
    {
      assert TreeAt(s, x);
    }
  }

  /** The shelved coroutine is idle, or is the last one on the reclaim queue; the invariant holds. */
  lemma ShelveKeeps<T>(s: Sched<T>)
    requires Recyclable(s)
    ensures LinksMatch(s, s.active)
    ensures var t := s.active; var s' := Shelve(s, t);
            && Inv(s') && s'.active == t && s'.th.Keys == s.th.Keys
            && s' == s.(th := s'.th, idle := s'.idle, reclaim := s'.reclaim)
            && (if |s.idle| < s.maxFree
                then s'.idle == s.idle + [t] && s'.reclaim == s.reclaim && s'.th[t] == FreshRec()
                else s'.idle == s.idle && s'.reclaim == s.reclaim + [t] && s'.th[t] == FreshRec().(link := InReclaim))
  {
    hide Inv;
    var t := s.active;
    DetachActive(s);
    var s0 := Detach(s, t);
    ResetKeeps(s0);
    var s1 := Reset(s0, t);
    if |s1.idle| < s1.maxFree {
      IdleKeeps(s1);
    } else {
      ReclaimKeeps(s1);
    }
  }

  lemma IdleKeeps<T>(s: Sched<T>)
    requires Recyclable(s) && s.th[s.active].parent.None? && |s.idle| < s.maxFree
    ensures Inv(s.(idle := s.idle + [s.active]))
  {
    hide IsHeap, Distinct;
    var s' := s.(idle := s.idle + [s.active]);
    AppendKeepsNoDup(s.idle, s.active);
    forall x | x in s'.th
      ensures Placed(s', x)
    {
      assert Placed(s, x);
    }
    IdleTree(s);
  }

  lemma IdleTree<T>(s: Sched<T>)
    requires TreeInv(s) && s.active in s.th && s.th[s.active].parent.None? && s.th[s.active].subs == []
    ensures TreeInv(s.(idle := s.idle + [s.active]))
  {
    var s' := s.(idle := s.idle + [s.active]);
    forall x | x in s'.th
      ensures TreeAt(s', x)
    {
      assert TreeAt(s, x);
    }
  }

  lemma ReclaimKeeps<T>(s: Sched<T>)
    requires Recyclable(s) && s.th[s.active].parent.None?
    ensures var t := s.active;
            && TailqInsertTail(s, InReclaim, t)
            == s.(reclaim := s.reclaim + [t], th := s.th[t := s.th[t].(link := InReclaim)])
            && Inv(TailqInsertTail(s, InReclaim, t))
  {
    var t := s.active;
    var s' := TailqInsertTail(s, InReclaim, t);
    assert Placed(s, t);
    assert s' == s.(reclaim := s.reclaim + [t], th := s.th[t := s.th[t].(link := InReclaim)]);
    AppendKeepsNoDup(s.reclaim, t);
    forall x | x in s'.th
      ensures Placed(s', x)
    {
      assert Placed(s, x);
    }
    MoveKeeps(s, s', t);
  }

  /** AllocThread: the longest idle coroutine, or a new one. */
  function Alloc<T(==)>(s: Sched<T>, newcomer: T): (r: (Sched<T>, T))
    requires newcomer !in s.th
  {
    if s.idle != [] then (s.(idle := s.idle[1..]), s.idle[0])
    else (s.(th := s.th[newcomer := FreshRec()], total := s.total + 1), newcomer)
  }

  lemma AllocKeeps<T>(s: Sched<T>, newcomer: T)
    requires Quiet(s) && newcomer !in s.th
    ensures var (s', t) := Alloc(s, newcomer);
            && Quiet(s') && Loose(s', t) && t != s'.active
            && s' == s.(idle := s'.idle, th := s'.th, total := s'.total)
            && (forall x :: x in s.th ==> x in s'.th && s'.th[x] == s.th[x])
            && (forall x :: x in s'.th ==> x in s.th || x == t)
  {
    if s.idle != [] {
      ReuseKeeps(s);
    } else {
      NewKeeps(s, newcomer);
    }
  }

  lemma ReuseKeeps<T>(s: Sched<T>)
    requires Quiet(s) && s.idle != []
    ensures Quiet(s.(idle := s.idle[1..])) && Loose(s.(idle := s.idle[1..]), s.idle[0]) && s.idle[0] != s.active
  {
    var s' := s.(idle := s.idle[1..]);
    assert s.idle[0] in s.idle && s.idle[0] !in s.idle[1..];
    forall x | x in s'.idle
      ensures x in s.idle
    {
    }
    forall x | x in s'.th
      ensures Placed(s', x) && TreeAt(s', x)
    {
      assert Placed(s, x) && TreeAt(s, x);
    }
  }

  lemma NewKeeps<T>(s: Sched<T>, newcomer: T)
    requires Quiet(s) && newcomer !in s.th
    ensures var s' := s.(th := s.th[newcomer := FreshRec()], total := s.total + 1);
            Quiet(s') && newcomer !in s.idle
  {
    var s' := s.(th := s.th[newcomer := FreshRec()], total := s.total + 1);
    NewIsNowhere(s, newcomer);
    forall x | x in s'.th
      ensures Placed(s', x)
    {
      if x in s.th {
        assert Placed(s, x);
      }
    }
    NewTree(s, newcomer);
    assert s'.th.Keys - {s.daemon, s.primo} == s.th.Keys - {s.daemon, s.primo} + {newcomer};
  }

  lemma NewIsNowhere<T>(s: Sched<T>, newcomer: T)
    requires Inv(s) && newcomer !in s.th
    ensures !HasItem(s.heap, newcomer)
    ensures newcomer !in s.run && newcomer !in s.io && newcomer !in s.pend && newcomer !in s.reclaim
    ensures newcomer !in s.idle
  {
    forall i | 0 <= i < |s.heap|
      ensures s.heap[i].item != newcomer
    {
      assert s.heap[i] in s.heap;
    }
  }

  lemma NewTree<T>(s: Sched<T>, newcomer: T)
    requires TreeInv(s) && newcomer !in s.th && newcomer !in s.idle
    ensures TreeInv(s.(th := s.th[newcomer := FreshRec()], total := s.total + 1))
  {
    var s' := s.(th := s.th[newcomer := FreshRec()], total := s.total + 1);
    forall x | x in s'.th
      ensures TreeAt(s', x)
    {
      if x in s.th {
        assert TreeAt(s, x);
      }
    }
  }

  /** CreateThread. */
  function Create<T(==)>(s: Sched<T>, newcomer: T, runable: bool): (r: (Sched<T>, T))
    requires Quiet(s) && newcomer !in s.th
  {
    AllocKeeps(s, newcomer);
    var (s1, t) := Alloc(s, newcomer);
    if runable then (InsertRunable(s1, t), t) else (s1, t)
  }
}
