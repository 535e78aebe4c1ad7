/** StThreadSchedule of src/st_thread.cc as an object that relinks queues and sets flag bits in place;
    every method is proved against the function of the same name on its view. */
module ThreadSchedule {
  import opened HeapModel
  import opened Queues
  import opened SchedModel
  import opened SchedInvariant
  import opened SchedOps
  import opened SchedLifecycle
  import opened Coroutines
  import opened SleepHeap

  /** UtilPtrPool of stlib/st_util.h. */
  class UtilPtrPool {
    var idle: seq<StThreadItem>
    var maxFree: nat
    var total: nat

    constructor (maxFree: nat)
      ensures idle == [] && this.maxFree == maxFree && total == 0
    {
      idle, this.maxFree, total := [], maxFree, 0;
    }

    method PushIdle(ptr: StThreadItem)
      modifies `idle
      ensures idle == old(idle) + [ptr]
    {
      idle := idle + [ptr];
    }

    method NoteDestroyed()
      modifies `total
      ensures total == if old(total) > 0 then old(total) - 1 else 0
    {
      if total > 0 {
        total := total - 1;
      }
    }

    /** The longest idle object, else a new one. */
    method AllocPtr() returns (ptr: StThreadItem)
      modifies this
      ensures maxFree == old(maxFree)
      ensures if old(idle) != [] then ptr == old(idle)[0] && idle == old(idle)[1..] && total == old(total)
              else fresh(ptr) && ptr.Record() == FreshRec() && ptr.heapIndex == 0
                   && idle == [] && total == old(total) + 1
    {
      if idle != [] {
        ptr := idle[0];
        idle := idle[1..];
      } else {
        ptr := new StThreadItem();
        total := total + 1;
      }
    }
  }

  /** The scheduler before anything ran. */
  function Booted<T(==)>(d: T, p: T, cap: nat, maxFree: nat): Sched<T>
  {
    Sched([], [], [], [], [], cap,
          map[d := FreshRec().(kind := Daemon), p := FreshRec().(kind := Primordial)],
          p, d, p, [], maxFree, 0)
  }

  /** CreateThread took t from the pool, or made it when the pool had none, and queued it if asked. */
  ghost predicate Created<T>(s: Sched<T>, s': Sched<T>, t: T, runable: bool)
  {
    && (if s.idle == [] then t !in s.th else t == s.idle[0] && t in s.th && s.th[t].link == Unlinked)
    && var s1 := if s.idle == [] then Alloc(s, t).0 else s.(idle := s.idle[1..]);
       s' == if runable then SchedModel.InsertRunable(s1, t) else s1
  }

  class StThreadSchedule {
    var runList: seq<StThreadItem>
    var ioList: seq<StThreadItem>
    var pendList: seq<StThreadItem>
    var reclaimList: seq<StThreadItem>
    const sleepList: HeapList
    const pool: UtilPtrPool
    var activeThread: StThreadItem
    var daemon: StThreadItem
    var primo: StThreadItem
    ghost var threads: set<StThreadItem>      // the coroutines that exist

    /** The heap holds existing coroutines, and their indices say so. */
    ghost predicate HeapOk()
      reads `threads, sleepList, sleepList.list, sleepList.members`heapIndex, threads`heapIndex
    {
      && sleepList.Valid() && sleepList.members <= threads
      && (forall t :: t in threads ==> sleepList.Indexed(t))
    }

    ghost predicate Valid()
      reads this, sleepList, sleepList.list, sleepList.members`heapIndex, threads`heapIndex
    {
      HeapOk() && activeThread in threads && daemon in threads && primo in threads
    }

    ghost function Records(): (m: map<StThreadItem, Rec<StThreadItem>>)
      reads `threads
      reads threads`ioFlag, threads`sleepFlag, threads`runFlag, threads`pendFlag, threads`subFlag, threads`link
      reads threads`wakeupTime, threads`notified, threads`kind, threads`parent, threads`subs
      ensures m.Keys == threads && forall t :: t in threads ==> m[t] == t.Record()
    {
      map t | t in threads :: t.Record()
    }

    /** The scheduler on values. */
    ghost function View(): (s: Sched<StThreadItem>)
      reads this, sleepList, pool, sleepList.items`wakeupTime
      reads threads`ioFlag, threads`sleepFlag, threads`runFlag, threads`pendFlag, threads`subFlag, threads`link
      reads threads`wakeupTime, threads`notified, threads`kind, threads`parent, threads`subs
    {
      Sched(runList, ioList, pendList, reclaimList, sleepList.Nodes(), sleepList.max, Records(),
            activeThread, daemon, primo, pool.idle, pool.maxFree, pool.total)
    }

    /** StSysSchedule::Init: the daemon and the primordial coroutine, the latter active. */
    constructor (maxNum: nat, pool: UtilPtrPool)
      requires pool.idle == [] && pool.total == 0
      ensures Valid() && fresh(sleepList) && fresh(sleepList.list) && fresh(threads) && this.pool == pool
      ensures daemon != primo
      ensures View() == Booted(daemon, primo, if 2 * maxNum > 1024 then 2 * maxNum else 1024, pool.maxFree)
    {
      hide HeapList.Valid, HeapList.Nodes, HeapOk, Records, View, Valid;
      var heap := new HeapList(1024);
      var d := new StThreadItem();
      var p := new StThreadItem();
      d.kind, p.kind := Daemon, Primordial;
      var rc := heap.HeapResize(maxNum * 2);
      this.pool, sleepList := pool, heap;
      runList, ioList, pendList, reclaimList := [], [], [], [];
      daemon, primo, activeThread := d, p, p;
      threads := {d, p};
      assert d.Record() == FreshRec().(kind := Daemon);
      assert p.Record() == FreshRec().(kind := Primordial);
      new;
      BootedOk();
    }

    lemma BootedOk()
      requires sleepList.Valid() && sleepList.members == {} && sleepList.items == []
      requires threads == {daemon, primo} && daemon != primo && activeThread == primo
      requires daemon.heapIndex == 0 && primo.heapIndex == 0 && pool.idle == [] && pool.total == 0
      requires runList == [] && ioList == [] && pendList == [] && reclaimList == []
      requires daemon.Record() == FreshRec().(kind := Daemon) && primo.Record() == FreshRec().(kind := Primordial)
      ensures Valid() && View() == Booted(daemon, primo, sleepList.max, pool.maxFree)
    {
      hide HeapList.Valid, HeapList.Nodes;
      assert Records() == Booted(daemon, primo, sleepList.max, pool.maxFree).th;
    }

    function QueueOf(l: Link): (q: seq<StThreadItem>)
      requires l != Unlinked
      reads `runList, `ioList, `pendList, `reclaimList
    {
      match l
      case InRun => runList
      case InIo => ioList
      case InPend => pendList
      case InReclaim => reclaimList
    }

    /** The view at one coroutine, for proofs that hide it. */
    lemma Sees(t: StThreadItem)
      requires Valid() && t in threads
      ensures t in View().th && View().th[t] == t.Record()
      ensures View().active == activeThread && View().daemon == daemon && View().primo == primo
      ensures forall l :: l != Unlinked ==> SchedModel.QueueOf(View(), l) == QueueOf(l)
    {
    }

    /** Only the record of t differs. */
    twostate lemma RecordChanged(t: StThreadItem)
      requires old(Valid()) && unchanged(this) && unchanged(sleepList) && unchanged(pool) && t in threads
      requires unchanged(sleepList.list) && unchanged(threads`heapIndex)
      requires forall x :: x in sleepList.items ==> x.wakeupTime == old(x.wakeupTime)
      requires forall x :: x in threads && x != t ==> x.Record() == old(x.Record())
      ensures Valid() && View() == SetRec(old(View()), t, t.Record())
    {
      hide HeapList.Nodes;
      assert Records() == old(Records())[t := t.Record()];
    }

    /** Only the queues differ. */
    twostate lemma QueuesChanged()
      requires old(Valid()) && unchanged(`activeThread, `daemon, `primo, `threads)
      requires unchanged(sleepList) && unchanged(pool)
      requires unchanged(sleepList.list) && unchanged(threads) && unchanged(sleepList.items)
      ensures Valid()
      ensures View() == old(View()).(run := runList, io := ioList, pend := pendList, reclaim := reclaimList)
      ensures old(View()).run == old(runList) && old(View()).io == old(ioList)
      ensures old(View()).pend == old(pendList) && old(View()).reclaim == old(reclaimList)
    {
      hide HeapList.Nodes, HeapList.Valid;
      assert Records() == old(Records());
    }

    /** The queue of head l, as CPP_TAILQ macros name it. */
    method SetQueue(l: Link, q: seq<StThreadItem>)
      requires Valid() && l != Unlinked
      modifies `runList, `ioList, `pendList, `reclaimList
      ensures Valid() && View() == WithQueue(old(View()), l, q)
    {
      hide Valid, View;
      if l == InRun {
        runList := q;
      } else if l == InIo {
        ioList := q;
      } else if l == InPend {
        pendList := q;
      } else {
        reclaimList := q;
      }
      QueuesChanged();
    }

    method TailqRemove(l: Link, t: StThreadItem)
      requires Valid() && l != Unlinked && t in threads && (t.link == Unlinked || t.link == l)
      modifies `runList, `ioList, `pendList, `reclaimList, t`link
      ensures Valid() && t.link == Unlinked && View() == SchedModel.TailqRemove(old(View()), l, t)
    {
      hide Valid, View, Drop;
      Sees(t);
      if t.link == Unlinked {
        return;
      }
      t.link := Unlinked;
      RecordChanged(t);
      SetQueue(l, Drop(QueueOf(l), t));
    }

    method TailqInsertTail(l: Link, t: StThreadItem)
      requires Valid() && l != Unlinked && t in threads && (t.link == Unlinked || t.link == l)
      modifies `runList, `ioList, `pendList, `reclaimList, t`link
      ensures Valid() && t.link == l && View() == SchedModel.TailqInsertTail(old(View()), l, t)
    {
      hide Valid, View, Drop;
      Sees(t);
      TailqRemove(l, t);
      label L:
      Sees(t);
      t.link := l;
      RecordChanged@L(t);
      SetQueue(l, QueueOf(l) + [t]);
    }

    method InsertRunable(t: StThreadItem)
      requires Valid() && t in threads && (t.link == Unlinked || t.link == InRun)
      modifies `runList, `ioList, `pendList, `reclaimList, t`link, t`runFlag
      ensures Valid() && View() == SchedModel.InsertRunable(old(View()), t)
    {
      hide Valid, View, SchedModel.TailqInsertTail;
      Sees(t);
      t.runFlag := true;
      RecordChanged(t);
      TailqInsertTail(InRun, t);
    }

    method RemoveRunable(t: StThreadItem)
      requires Valid() && t in threads && (t.link == Unlinked || t.link == InRun)
      modifies `runList, `ioList, `pendList, `reclaimList, t`link, t`runFlag
      ensures Valid() && t.link == Unlinked && View() == SchedModel.RemoveRunable(old(View()), t)
    {
      hide Valid, View, SchedModel.TailqRemove;
      Sees(t);
      t.runFlag := false;
      RecordChanged(t);
      TailqRemove(InRun, t);
    }

    /** Only the heap differs. */
    twostate lemma HeapChanged()
      requires unchanged(this) && unchanged(pool) && sleepList.max == old(sleepList.max)
      requires forall x :: x in threads ==> x.Record() == old(x.Record())
      requires old(Valid()) && sleepList.Valid()
      requires sleepList.members <= threads
      requires forall x :: x in threads && x !in sleepList.members ==> x.heapIndex == 0
      ensures Valid() && View() == old(View()).(heap := sleepList.Nodes())
    {
      hide HeapList.Nodes, HeapList.Valid;
      sleepList.MembersIndexed();
      assert Records() == old(Records());
    }

    /** HeapPush with its result ignored. */
    method PushSleep(t: StThreadItem)
      requires Valid() && t in threads
      modifies sleepList, sleepList.list, threads`heapIndex
      ensures Valid() && View() == SchedModel.HeapPush(old(View()), t) && sleepList.list == old(sleepList.list)
    {
      hide HeapList.Nodes, Push, HeapList.Valid, View;
      sleepList.IndexIsPlace(t);
      Sees(t);
      Heap();
      var rc := sleepList.HeapPush(t);
      HeapChanged();
    }

    method PullSleep(t: StThreadItem) returns (rc: int)
      requires Valid() && t in threads
      modifies sleepList, sleepList.list, threads`heapIndex
      ensures Valid() && View() == SchedModel.HeapDelete(old(View()), t) && sleepList.list == old(sleepList.list)
      ensures rc == 0 <==> HasItem(old(View()).heap, t)
    {
      hide HeapList.Nodes, DeleteAt, HeapList.Valid, View;
      sleepList.IndexIsPlace(t);
      Sees(t);
      Heap();
      rc := sleepList.HeapDelete(t);
      HeapChanged();
    }

    lemma Heap()
      ensures View().heap == sleepList.Nodes() && View().cap == sleepList.max
      ensures sleepList.Valid() ==> |sleepList.Nodes()| == sleepList.count == |sleepList.items|
    {
    }

    method InsertSleep(t: StThreadItem)
      requires Valid() && t in threads
      modifies sleepList, sleepList.list, threads`heapIndex, t`sleepFlag
      ensures Valid() && sleepList.list == old(sleepList.list)
      ensures View() == SchedModel.InsertSleep(old(View()), t)
    {
      hide Valid, View, SchedModel.HeapPush;
      Sees(t);
      t.sleepFlag := true;
      RecordChanged(t);
      PushSleep(t);
    }

    method RemoveSleep(t: StThreadItem) returns (rc: int)
      requires Valid() && t in threads
      modifies sleepList, sleepList.list, threads`heapIndex, t`sleepFlag
      ensures Valid() && sleepList.list == old(sleepList.list)
      ensures View() == SchedModel.RemoveSleep(old(View()), t)
      ensures rc == 0 <==> HasItem(old(View()).heap, t)
    {
      hide Valid, View, SchedModel.HeapDelete;
      Sees(t);
      t.sleepFlag := false;
      RecordChanged(t);
      rc := PullSleep(t);
    }

    method InsertIOWait(t: StThreadItem)
      requires Valid() && t in threads && (t.link == Unlinked || t.link == InIo)
      modifies `runList, `ioList, `pendList, `reclaimList, t`link, t`ioFlag, t`sleepFlag,
        sleepList, sleepList.list, threads`heapIndex
      ensures Valid() && sleepList.list == old(sleepList.list)
      ensures View() == SchedModel.InsertIOWait(old(View()), t)
    {
      hide Valid, View, SchedModel.TailqInsertTail, SchedModel.InsertSleep;
      Sees(t);
      t.ioFlag := true;
      RecordChanged(t);
      TailqInsertTail(InIo, t);
      InsertSleep(t);
    }

    method RemoveIOWait(t: StThreadItem)
      requires Valid() && t in threads && (t.link == Unlinked || t.link == InIo)
      modifies `runList, `ioList, `pendList, `reclaimList, t`link, t`ioFlag, t`sleepFlag,
        sleepList, sleepList.list, threads`heapIndex
      ensures Valid() && sleepList.list == old(sleepList.list)
      ensures View() == SchedModel.RemoveIOWait(old(View()), t)
      ensures t.link == Unlinked
    {
      hide Valid, View, SchedModel.TailqRemove, SchedModel.RemoveSleep;
      Sees(t);
      t.ioFlag := false;
      RecordChanged(t);
      TailqRemove(InIo, t);
      var rc := RemoveSleep(t);
    }

    method IOWaitToRunable(t: StThreadItem)
      requires Valid() && t in threads && (t.link == Unlinked || t.link == InIo)
      modifies `runList, `ioList, `pendList, `reclaimList, t`link, t`ioFlag, t`sleepFlag, t`runFlag,
        sleepList, sleepList.list, threads`heapIndex
      ensures Valid() && sleepList.list == old(sleepList.list)
      ensures View() == SchedModel.IOWaitToRunable(old(View()), t)
    {
      hide Valid, View, SchedModel.InsertRunable, SchedModel.RemoveIOWait;
      Sees(t);
      RemoveIOWait(t);
      InsertRunable(t);
    }

    method InsertPend(t: StThreadItem)
      requires Valid() && t in threads && (t.link == Unlinked || t.link == InPend)
      modifies `runList, `ioList, `pendList, `reclaimList, t`link, t`pendFlag
      ensures Valid()
      ensures View() == SchedModel.InsertPend(old(View()), t)
    {
      hide Valid, View, SchedModel.TailqInsertTail;
      Sees(t);
      t.pendFlag := true;
      RecordChanged(t);
      TailqInsertTail(InPend, t);
    }

    method Unpend(t: StThreadItem)
      requires Valid() && t in threads && (t.link == Unlinked || t.link == InPend)
      modifies `runList, `ioList, `pendList, `reclaimList, t`link, t`pendFlag, t`runFlag
      ensures Valid()
      ensures View() == SchedModel.Unpend(old(View()), t)
    {
      hide Valid, View, SchedModel.TailqRemove, SchedModel.InsertRunable;
      Sees(t);
      t.pendFlag := false;
      RecordChanged(t);
      TailqRemove(InPend, t);
      InsertRunable(t);
    }

    method Notify(t: StThreadItem)
      requires Valid() && t in threads
      requires NotifyReady(View(), t)
      modifies `runList, `ioList, `pendList, `reclaimList, t`notified, t`link, t`ioFlag, t`sleepFlag, t`runFlag,
        sleepList, sleepList.list, threads`heapIndex
      ensures Valid() && sleepList.list == old(sleepList.list)
      ensures View() == SchedModel.Notify(old(View()), t)
    {
      hide Valid, View, SchedModel.RemoveSleep, SchedModel.RemoveIOWait, SchedModel.InsertRunable;
      Sees(t);
      t.notified := true;
      RecordChanged(t);
      if t == activeThread {
        return;
      }
      if t.ioFlag {
        RemoveIOWait(t);
        InsertRunable(t);
      } else if t.sleepFlag {
        var rc := RemoveSleep(t);
        InsertRunable(t);
      }
    }

    /** SetWakeupTime of a coroutine outside the heap. */
    method SetWakeupTime(t: StThreadItem, deadline: int)
      requires Valid() && t in threads && t !in sleepList.members
      modifies t`wakeupTime
      ensures Valid() && View() == SetWakeup(old(View()), t, deadline)
    {
      Outside(t);
      hide Valid, View, HeapList.Valid;
      Sees(t);
      t.wakeupTime := deadline;
      RecordChanged(t);
    }

    /** The top of the heap as the object and as the model see it. */
    lemma Top()
      requires Valid()
      ensures sleepList.Valid() && (View().heap == [] <==> sleepList.items == [])
      ensures sleepList.items != [] ==>
                var t := sleepList.items[0];
                t in threads && View().heap[0] == Node(t, t.wakeupTime)
    {
      sleepList.MembersIndexed();
      if sleepList.items != [] {
        sleepList.Slot(1);
      }
    }

    /** One pass of the loop in Wakeup. */
    method WakeTop(thread: StThreadItem)
      requires Valid() && TopLinked(View()) && thread == View().heap[0].item
      modifies `runList, `ioList, `pendList, `reclaimList, sleepList, sleepList.list, threads
      ensures Valid() && sleepList.list == old(sleepList.list)
      ensures View() == SchedModel.WakeTop(old(View()))
    {
      Queue();
      hide Valid, View, SchedModel.RemoveIOWait, SchedModel.RemoveSleep, SchedModel.InsertRunable;
      Sees(thread);
      if thread.ioFlag {
        RemoveIOWait(thread);
      } else {
        var rc := RemoveSleep(thread);
      }
      InsertRunable(thread);
    }

    method Wakeup(now: int)
      requires Valid() && Quiet(View())
      modifies `runList, `ioList, `pendList, `reclaimList, sleepList, sleepList.list, threads
      ensures Valid() && sleepList.list == old(sleepList.list)
      ensures View() == SchedOps.Wakeup(old(View()), now)
    {
      hide Valid, View, Inv, SchedModel.WakeTop, TopMoved, HeapList.Valid;
      Top();
      var thread := sleepList.HeapTop();
      while thread != null && thread.wakeupTime <= now
        invariant Valid() && sleepList.list == old(sleepList.list) && Quiet(View())
        invariant SchedOps.Wakeup(View(), now) == SchedOps.Wakeup(old(View()), now)
        invariant thread == if sleepList.items == [] then null else sleepList.items[0]
        decreases |View().heap|
      {
        Top();
        WakeTopKeeps(View());
        WakeTop(thread);
        Top();
        thread := sleepList.HeapTop();
      }
      Top();
    }

    lemma NotInHeap(t: StThreadItem)
      requires Valid() && t in threads
      ensures HasItem(View().heap, t) <==> t in sleepList.members
    {
      sleepList.IndexIsPlace(t);
    }

    twostate lemma OneGone(t: StThreadItem)
      requires old(Valid()) && t !in sleepList.members && threads == old(threads) - {t}
      requires unchanged(`runList, `ioList, `pendList, `reclaimList, `activeThread, `daemon, `primo,
                   pool`idle, pool`maxFree)
      requires unchanged(sleepList) && unchanged(old(threads))
      requires unchanged(sleepList.list) && unchanged(sleepList.items) && t != activeThread && t != daemon && t != primo
      ensures Valid() && View() == old(View()).(th := old(View()).th - {t}, total := pool.total)
    {
      hide HeapList.Nodes, HeapList.Valid;
      assert Records() == old(Records()) - {t};
    }

    /** NoteDestroyed and delete of a coroutine outside the heap. */
    method DestroyOne(ghost t: StThreadItem)
      requires Valid() && t in threads && !HasItem(View().heap, t)
      requires t != activeThread && t != daemon && t != primo
      modifies `threads, pool`total
      ensures Valid() && View() == Destroy(old(View()), t) && threads == old(threads) - {t}
    {
      hide HeapList.Nodes, HeapList.Valid, View, Valid;
      NotInHeap(t);
      Queue();
      pool.NoteDestroyed();
      threads := threads - {t};
      OneGone(t);
    }

    function Held(hold: StThreadItem?): Option<StThreadItem>
    {
      if hold == null then None else var t: StThreadItem := hold; Some(t)
    }

    /** One pass of the loop in ReapReclaim. */
    method ReapOne(current: StThreadItem, hold: StThreadItem?, ghost k: nat) returns (kept: StThreadItem?)
      requires Valid() && Inv(View()) && current == activeThread && k > 0 && reclaimList != []
      modifies `runList, `ioList, `pendList, `reclaimList, `threads, pool`total, threads`link
      ensures Valid() && Inv(View()) && threads <= old(threads)
      ensures ReapLoop(View(), k - 1, Held(kept)) == ReapLoop(old(View()), k, Held(hold))
    {
      hide Valid, View, Inv, Destroy, SchedModel.TailqRemove;
      Queue();
      ReclaimHeadKeeps(View());
      var t := reclaimList[0];
      At(View(), t);
      Sees(t);
      TailqRemove(InReclaim, t);
      if t == current {
        return t;
      }
      DestroyOne(t);
      return hold;
    }

    lemma AfterReapLoop(s: Sched<StThreadItem>, s1: Sched<StThreadItem>, hold: Option<StThreadItem>)
      requires Inv(s) && (s1, hold) == ReapLoop(s, |s.reclaim|, None)
      ensures hold.None? ==> SchedOps.ReapReclaim(s) == s1
      ensures hold.Some? ==>
                && hold.value in s1.th && s1.th[hold.value].link == Unlinked
                && SchedOps.ReapReclaim(s) == SchedModel.TailqInsertTail(s1, InReclaim, hold.value)
    {
      hide Inv;
      ReapLoopExact(s, |s.reclaim|, None);
      if s.active in s.reclaim {
        ReclaimedFacts(s, s.active);
      }
    }

    method ReapReclaim(current: StThreadItem)
      requires Valid() && Inv(View()) && current == activeThread
      modifies `runList, `ioList, `pendList, `reclaimList, `threads, pool`total, threads`link
      ensures Valid() && threads <= old(threads) && View() == SchedOps.ReapReclaim(old(View()))
    {
      hide Valid, View, Inv, SchedModel.TailqInsertTail, SchedOps.ReapReclaim;
      Queue();
      var hold: StThreadItem? := null;
      var n, i := |reclaimList|, 0;
      while i < n
        invariant 0 <= i <= n && Valid() && Inv(View()) && threads <= old(threads)
        invariant ReapLoop(View(), n - i, Held(hold)) == ReapLoop(old(View()), n, None)
      {
        Queue();
        if reclaimList == [] {
          break;
        }
        hold := ReapOne(current, hold, n - i);
        i := i + 1;
      }
      Queue();
      AfterReapLoop(old(View()), View(), Held(hold));
      if hold != null {
        Sees(hold);
        TailqInsertTail(InReclaim, hold);
      }
    }

    lemma Queue()
      ensures View().reclaim == reclaimList && View().run == runList && View().active == activeThread
      ensures View().idle == pool.idle && View().maxFree == pool.maxFree && View().total == pool.total
      ensures View().th.Keys == threads && (Valid() ==> activeThread in threads)
    {
    }

    method PopRunable() returns (t: StThreadItem)
      requires Valid() && runList != [] && runList[0] in threads && runList[0].link == InRun
      modifies `runList, `ioList, `pendList, `reclaimList, threads`link, threads`runFlag
      ensures Valid() && t == old(runList)[0]
      ensures View() == SchedOps.PopRunable(old(View()))
    {
      hide Valid, View, SchedModel.TailqRemove;
      Queue();
      t := runList[0];
      Sees(t);
      TailqRemove(InRun, t);
      label L:
      Sees(t);
      t.runFlag := false;
      RecordChanged@L(t);
    }

    method SetActive(t: StThreadItem)
      requires Valid() && t in threads
      modifies `activeThread
      ensures Valid() && View() == old(View()).(active := t)
    {
      hide HeapOk, HeapList.Nodes, Records;
      activeThread := t;
    }

    /** The head of the run queue, or the daemon, becomes active; reclaimed coroutines are deleted. */
    method Yield(athread: StThreadItem)
      requires Valid() && Inv(View()) && athread == activeThread
      modifies `runList, `ioList, `pendList, `reclaimList, `activeThread, `threads, pool`total,
        threads`link, threads`runFlag
      ensures Valid() && threads <= old(threads) && View() == SchedOps.Yield(old(View()))
    {
      hide Valid, View, Inv, SchedOps.ReapReclaim, SchedOps.PopRunable;
      ReapExact(View());
      ReapReclaim(athread);
      Queue();
      var thread := daemon;
      if runList == [] {
        Present();
      } else {
        PopRunableKeeps(View());
        Sees(runList[0]);
        thread := PopRunable();
        Queue();
      }
      SetActive(thread);
    }

    lemma Present()
      requires Valid()
      ensures activeThread in threads && daemon in threads && primo in threads && View().daemon == daemon
    {
    }

    /** Nothing for a sleeper; the active coroutine also switches away. */
    method Sleep(t: StThreadItem)
      requires Valid() && t in threads && Quiet(View())
      requires !t.sleepFlag ==> Loose(View(), t) && |View().heap| < View().cap
      modifies this, pool, sleepList, sleepList.list, threads
      ensures Valid() && threads <= old(threads) && sleepList.list == old(sleepList.list)
      ensures View() == if old(t.sleepFlag) then old(View()) else SchedLifecycle.Sleep(old(View()), t)
    {
      hide Valid, View, Inv, SchedModel.InsertSleep, SchedOps.Yield;
      if t.sleepFlag {
        return;
      }
      Queue();
      Sees(t);
      InsertSleepKeeps(View(), t);
      t.sleepFlag := true;
      RecordChanged(t);
      PushSleep(t);
      assert View() == SchedModel.InsertSleep(old(View()), t) by {
        UnfoldInsertSleep(old(View()), t);
      }
      if activeThread == t {
        Yield(activeThread);
      }
    }

    lemma UnfoldInsertSleep(s: Sched<StThreadItem>, t: StThreadItem)
      requires t in s.th
      ensures SchedModel.InsertSleep(s, t) == SchedModel.HeapPush(SetRec(s, t, s.th[t].(sleepFlag := true)), t)
    {
    }

    method Pend(t: StThreadItem)
      requires Valid() && t in threads && Quiet(View()) && Loose(View(), t)
      modifies this, pool, threads
      ensures Valid() && threads <= old(threads) && View() == SchedLifecycle.Pend(old(View()), t)
    {
      hide Valid, View, Inv, SchedModel.InsertPend, SchedOps.Yield;
      Queue();
      Sees(t);
      InsertPendKeeps(View(), t);
      InsertPend(t);
      if activeThread == t {
        Yield(activeThread);
      }
    }

    method SetSubs(t: StThreadItem, q: seq<StThreadItem>)
      requires Valid() && t in threads
      modifies t`subs
      ensures Valid() && View() == SetRec(old(View()), t, old(t.Record()).(subs := q))
    {
      hide Valid, View;
      t.subs := q;
      RecordChanged(t);
    }

    method SetParent(t: StThreadItem, p: StThreadItem?)
      requires Valid() && t in threads
      modifies t`parent, t`subFlag
      ensures Valid()
      ensures View() == SetRec(old(View()), t, old(t.Record()).(parent := Held(p), subFlag := p != null))
    {
      hide Valid, View;
      t.parent := p;
      t.subFlag := p != null;
      RecordChanged(t);
    }

    method AddSubStThread(parent: StThreadItem, sub: StThreadItem)
      requires Valid() && parent in threads && sub in threads
      modifies parent`subs, sub`parent, sub`subFlag
      ensures Valid() && View() == SchedLifecycle.AddSub(old(View()), parent, sub)
    {
      hide Valid, View;
      Sees(sub);
      Sees(parent);
      if sub.subFlag {
        return;
      }
      SetSubs(parent, parent.subs + [sub]);
      Sees(sub);
      SetParent(sub, parent);
    }

    method RemoveSubStThread(parent: StThreadItem, sub: StThreadItem)
      requires Valid() && parent in threads && sub in threads
      modifies parent`subs, sub`parent, sub`subFlag
      ensures Valid() && View() == SchedLifecycle.RemoveSub(old(View()), parent, sub)
    {
      hide Valid, View, Drop;
      Sees(sub);
      Sees(parent);
      if !sub.subFlag {
        return;
      }
      SetSubs(parent, Drop(parent.subs, sub));
      Sees(sub);
      SetParent(sub, null);
    }

    method WakeupParent(thread: StThreadItem)
      requires Valid() && thread in threads && ParentReady(View(), thread)
      modifies `runList, `ioList, `pendList, `reclaimList, threads
      ensures Valid() && View() == SchedLifecycle.WakeupParent(old(View()), thread)
      ensures old(thread.parent) != null ==>
                var parent: StThreadItem := old(thread.parent);
                if parent.subs == [] then runList == old(runList) + [parent] && parent.link == InRun && !parent.pendFlag
                else runList == old(runList) && parent.link == old(parent.link)
    {
      hide Valid, View, SchedModel.Unpend, SchedLifecycle.RemoveSub, ParentReady, Drop;
      Sees(thread);
      Queue();
      if thread.parent != null {
        var parent: StThreadItem := thread.parent;
        ParentIn(View(), thread, parent);
        ParentIsQueued(View(), thread);
        Sees(parent);
        RemoveSubStThread(parent, thread);
        Sees(parent);
        if parent.subs == [] {
          Unpend(parent);
        }
        Queue();
        Sees(parent);
      }
    }

    lemma ParentIn(s: Sched<StThreadItem>, t: StThreadItem, p: StThreadItem)
      requires t in s.th && ParentReady(s, t) && s.th[t].parent == Some(p)
      ensures p in s.th && p != t
      ensures RemoveSub(s, p, t).th[p].subs == [] ==> RemoveSub(s, p, t).th[p].link == InPend
    {
    }

    /** Off every queue, out of the heap, away from the parent. */
    method DetachForReuse(t: StThreadItem)
      requires Valid() && LinksMatch(View(), t)
      modifies `runList, `ioList, `pendList, `reclaimList, sleepList, sleepList.list, threads
      ensures Valid() && sleepList.list == old(sleepList.list)
      ensures View() == Detach(old(View()), t)
    {
      hide Valid, View, SchedModel.RemoveIOWait, SchedModel.RemoveSleep, SchedModel.RemoveRunable,
        SchedModel.TailqRemove, SchedLifecycle.RemoveSub;
      Queue();
      Sees(t);
      StopWaiting(t);
      Sees(t);
      LeaveQueues(t);
      Sees(t);
      if t.subFlag {
        Orphan(t);
      }
    }

    method LeaveQueues(t: StThreadItem)
      requires Valid() && t in threads && (t.runFlag ==> t.link == Unlinked || t.link == InRun)
      requires t.pendFlag ==> t.link == Unlinked || t.link == InPend || (t.runFlag && t.link == InRun)
      modifies `runList, `ioList, `pendList, `reclaimList, t`link, t`runFlag, t`pendFlag
      ensures Valid()
      ensures View() == var s := old(View());
                        var s2 := if s.th[t].runFlag then SchedModel.RemoveRunable(s, t) else s;
                        if s2.th[t].pendFlag
                          then SchedModel.TailqRemove(SetRec(s2, t, s2.th[t].(pendFlag := false)), InPend, t) else s2
    {
      hide Valid, View, SchedModel.TailqRemove;
      Sees(t);
      if t.runFlag {
        RemoveRunable(t);
      }
      Sees(t);
      if t.pendFlag {
        LeavePend(t);
      }
    }

    method StopWaiting(t: StThreadItem)
      requires Valid() && t in threads && (t.ioFlag ==> t.link == InIo)
      modifies `runList, `ioList, `pendList, `reclaimList, sleepList, sleepList.list, threads`heapIndex
      modifies t`link, t`ioFlag, t`sleepFlag
      ensures Valid() && sleepList.list == old(sleepList.list)
      ensures t.link == if old(t.ioFlag) then Unlinked else old(t.link)
      ensures View() == var s := old(View());
                        if s.th[t].ioFlag then SchedModel.RemoveIOWait(s, t)
                        else if s.th[t].sleepFlag then SchedModel.RemoveSleep(s, t) else s
    {
      hide Valid, View, SchedModel.RemoveIOWait, SchedModel.RemoveSleep;
      Sees(t);
      if t.ioFlag {
        RemoveIOWait(t);
      } else if t.sleepFlag {
        var rc := RemoveSleep(t);
      }
    }

    method LeavePend(t: StThreadItem)
      requires Valid() && t in threads && (t.link == Unlinked || t.link == InPend)
      modifies `runList, `ioList, `pendList, `reclaimList, t`link, t`pendFlag
      ensures Valid()
      ensures View() == SchedModel.TailqRemove(SetRec(old(View()), t, old(t.Record()).(pendFlag := false)), InPend, t)
    {
      hide Valid, View, SchedModel.TailqRemove;
      Sees(t);
      t.pendFlag := false;
      RecordChanged(t);
      TailqRemove(InPend, t);
    }

    /** RemoveSubStThread through the parent, if there is one. */
    method Orphan(t: StThreadItem)
      requires Valid() && t in threads && t.subFlag && (t.parent != null ==> t.parent in threads)
      modifies threads`subs, t`parent, t`subFlag
      ensures Valid()
      ensures View() == var s := old(View());
                        if s.th[t].parent.Some? then SchedLifecycle.RemoveSub(s, s.th[t].parent.value, t)
                        else SetRec(s, t, s.th[t].(subFlag := false))
    {
      hide Valid, View, SchedLifecycle.RemoveSub;
      Sees(t);
      if t.parent != null {
        RemoveSubStThread(t.parent, t);
      } else {
        t.subFlag := false;
        RecordChanged(t);
      }
    }

    /** StThread::Reset of a coroutine that is not in the heap. */
    method Reset(t: StThreadItem)
      requires Valid() && t in threads && t !in sleepList.members
      modifies `runList, `ioList, `pendList, `reclaimList, t
      ensures Valid() && View() == SchedLifecycle.Reset(old(View()), t)
    {
      hide Valid, View, SchedModel.TailqRemove, HeapList.Valid;
      Sees(t);
      if t.link != Unlinked {
        TailqRemove(t.link, t);
      }
      ClearFields(t);
    }

    method ClearFields(t: StThreadItem)
      requires Valid() && t in threads && t !in sleepList.members && t.link == Unlinked
      modifies t`ioFlag, t`sleepFlag, t`runFlag, t`pendFlag, t`subFlag, t`wakeupTime, t`kind, t`subs, t`parent,
        t`notified
      ensures Valid() && View() == SetRec(old(View()), t, FreshRec())
    {
      Outside(t);
      hide Valid, View, HeapList.Valid;
      t.wakeupTime, t.kind, t.subs, t.parent, t.notified := 0, Normal, [], null, false;
      t.ioFlag, t.sleepFlag, t.runFlag, t.pendFlag, t.subFlag := false, false, false, false, false;
      assert t.Record() == FreshRec();
      RecordChanged(t);
    }

    lemma Outside(t: StThreadItem)
      requires Valid() && t !in sleepList.members
      ensures t !in sleepList.items
    {
      assert forall i :: 0 <= i < |sleepList.items| ==> sleepList.items[i] in sleepList.members;
    }

    method PushIdle(t: StThreadItem)
      requires Valid()
      modifies pool`idle
      ensures Valid() && View() == old(View()).(idle := old(View()).idle + [t])
    {
      hide HeapOk, HeapList.Nodes, Records;
      pool.PushIdle(t);
    }

    /** The active coroutine goes to the pool, or, when that is full, to the reclaim queue, and
        switches away. */
    method Recycle(thread: StThreadItem)
      requires Valid() && Recyclable(View()) && thread == activeThread
      modifies this, pool, sleepList, sleepList.list, threads
      ensures Valid() && threads <= old(threads) && sleepList.list == old(sleepList.list)
      ensures View() == SchedLifecycle.Recycle(old(View()))
    {
      hide Valid, View, Inv, SchedLifecycle.Detach, SchedLifecycle.Reset, SchedOps.Yield, SchedModel.TailqInsertTail;
      Queue();
      ShelveKeeps(View());
      DetachActive(View());
      ResetKeeps(Detach(View(), thread));
      DetachForReuse(thread);
      Queue();
      At(View(), thread);
      NotInHeap(thread);
      Reset(thread);
      Queue();
      Sees(thread);
      if |pool.idle| < pool.maxFree {
        PushIdle(thread);
      } else {
        TailqInsertTail(InReclaim, thread);
      }
      Queue();
      Yield(thread);
    }

    twostate lemma OneMore(new t: StThreadItem)
      requires old(Valid()) && threads == old(threads) + {t} && t !in old(threads)
      requires unchanged(`runList, `ioList, `pendList, `reclaimList, `activeThread, `daemon, `primo)
      requires unchanged(sleepList) && unchanged(old(threads)) && pool.maxFree == old(pool.maxFree)
      requires unchanged(sleepList.list) && unchanged(sleepList.items) && t.heapIndex == 0
      ensures Valid()
      ensures View() == old(View()).(th := old(View()).th[t := t.Record()], idle := pool.idle, total := pool.total)
    {
      hide HeapList.Nodes, HeapList.Valid;
      assert Records() == old(Records())[t := t.Record()];
    }

    twostate lemma PoolChanged()
      requires old(Valid()) && unchanged(this) && unchanged(sleepList) && unchanged(threads)
      requires unchanged(sleepList.list) && unchanged(sleepList.items) && pool.maxFree == old(pool.maxFree)
      ensures Valid() && View() == old(View()).(idle := pool.idle, total := pool.total)
    {
      hide HeapList.Nodes, HeapList.Valid;
      assert Records() == old(Records());
    }

    /** The longest idle coroutine, or a new one. */
    method AllocThread() returns (t: StThreadItem)
      requires Valid() && (pool.idle != [] ==> pool.idle[0] in threads)
      modifies `threads, pool
      ensures Valid() && t in threads && threads == old(threads) + {t}
      ensures if old(pool.idle) == [] then fresh(t) && (View(), t) == Alloc(old(View()), t)
              else t == old(pool.idle)[0] && View() == old(View()).(idle := old(pool.idle)[1..])
    {
      hide Valid, View;
      Queue();
      t := pool.AllocPtr();
      if t !in threads {
        threads := threads + {t};
        OneMore(t);
      } else {
        PoolChanged();
      }
    }

    method CreateThread(runable: bool) returns (t: StThreadItem)
      requires Valid() && (pool.idle != [] ==> Free(View(), pool.idle[0]))
      modifies `runList, `ioList, `pendList, `reclaimList, `threads, pool, threads
      ensures Valid() && t in threads && threads == old(threads) + {t}
      ensures old(pool.idle) == [] ==> fresh(t)
      ensures Created(old(View()), View(), t, runable)
    {
      hide Valid, View, SchedModel.InsertRunable;
      Queue();
      if pool.idle != [] {
        Sees(pool.idle[0]);
      }
      t := AllocThread();
      if runable {
        Sees(t);
        InsertRunable(t);
      }
    }
  }
}
