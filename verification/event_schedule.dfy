/** StEventItem and its queues of src/st_poll.h, and StEventSchedule of src/st_thread.cc as an object
    that fills its table, drives the poll state and relinks items in place. */
module EventSchedule {
  import opened Queues
  import opened PollModel
  import opened PollBackends
  import opened EventModel
  import opened EventDispatch
  import opened SchedModel
  import opened SchedInvariant
  import opened SchedOps
  import opened SchedLifecycle
  import opened SchedRuns
  import opened Coroutines
  import opened ThreadSchedule

  class StEventItem {
    var fd: int
    var events: Mask
    var revents: Mask
    var owner: StThreadItem?
    var queue: StEventQueue?      // m_next_.parent

    constructor (fd: int)
      ensures this.fd == fd && events == NONE && revents == NONE && owner == null && queue == null
    {
      this.fd, events, revents, owner, queue := fd, NONE, NONE, null, null;
    }

    function Value(): Item<StThreadItem>
      reads `fd, `events, `revents, `owner
    {
      Item(fd, events, revents, Owned(owner))
    }
  }

  /** A CPP_TAILQ of items: the caller's fd set, or m_fdset_ of a coroutine. */
  class StEventQueue {
    var items: seq<StEventItem>

    constructor ()
      ensures items == []
    {
      items := [];
    }

    lemma Vacant()
      requires items == []
      ensures Valid()
    {
    }

    /** The items say that they are linked here, each once. */
    ghost predicate Valid()
      reads this, items`queue
    {
      NoDup(items) && forall i :: 0 <= i < |items| ==> items[i].queue == this
    }

    method Remove(item: StEventItem)
      requires item.queue == null || item.queue == this
      modifies this, item`queue
      ensures item.queue == null
      ensures items == if old(item.queue) == null then old(items) else Drop(old(items), item)
    {
      if item.queue != null {
        items := Drop(items, item);
        item.queue := null;
      }
    }

    method InsertTail(item: StEventItem)
      requires item.queue == null || item.queue == this
      modifies this, item`queue
      ensures item.queue == this
      ensures items == (if old(item.queue) == null then old(items) else Drop(old(items), item)) + [item]
    {
      Remove(item);
      items := items + [item];
      item.queue := this;
    }

    /** InsertTail of an item that is linked nowhere. */
    method Append(item: StEventItem)
      requires Valid() && item.queue == null
      modifies this, item`queue
      ensures Valid() && item.queue == this && items == old(items) + [item]
    {
      AppendKeepsNoDup(items, item);
      InsertTail(item);
    }

    method RemoveAt(ghost k: nat, item: StEventItem)
      requires Valid() && k < |items| && item == items[k]
      modifies this, item`queue
      ensures Valid() && item.queue == null && items == old(items[..k] + items[k + 1..])
    {
      DropAt(items, k);
      DropKeepsTheRest(items, item);
      Remove(item);
    }

    /** One item, the k-th of `from`, becomes the last one here. */
    method TakeAt(from: StEventQueue, ghost k: nat, item: StEventItem)
      requires Valid() && from.Valid() && from != this && k < |from.items| && item == from.items[k]
      modifies this, from, item`queue
      ensures Valid() && from.Valid()
      ensures items == old(items) + [item]
      ensures from.items == old(from.items[..k] + from.items[k + 1..])
    {
      from.RemoveAt(k, item);
      InsertTail(item);
    }

    /** StThreadItem::Add of a whole queue. */
    method TakeAll(from: StEventQueue)
      requires Valid() && from.Valid() && from != this
      modifies this, from, from.items`queue
      ensures Valid() && from.Valid() && items == old(items) + old(from.items) && from.items == []
    {
      ghost var n := 0;
      while from.items != []
        invariant 0 <= n <= |old(from.items)| && from.items == old(from.items)[n..]
        invariant items == old(items) + old(from.items)[..n]
        invariant Valid() && from.Valid()
        decreases |from.items|
      {
        var item := from.items[0];
        assert item in old(from.items);
        TakeAt(from, 0, item);
        n := n + 1;
      }
    }

    /** The last n items of `from`, first to last, go back to the end of this queue. */
    method TakeBack(from: StEventQueue, n: nat)
      requires Valid() && from.Valid() && from != this && n <= |from.items|
      modifies this, from, from.items`queue
      ensures Valid() && from.Valid()
      ensures items == old(items + from.items[|from.items| - n..])
      ensures from.items == old(from.items[..|from.items| - n])
    {
      ghost var all, mine := from.items, items;
      var k := |from.items| - n;
      var i := 0;
      while i < n
        invariant 0 <= i <= n && Valid() && from.Valid()
        invariant from.items == all[..k] + all[k + i..]
        invariant items == mine + all[k..k + i]
      {
        var cursor := from.items[k];
        assert cursor == all[k + i];
        TakeAt(from, k, cursor);
        assert all[k..k + i] + [all[k + i]] == all[k..k + i + 1];
        i := i + 1;
      }
    }

    /** Every item is unlinked. */
    method Clear()
      requires Valid()
      modifies this, items`queue
      ensures Valid() && items == [] && forall i :: i in old(items) ==> i.queue == null
    {
      ghost var n := 0;
      while items != []
        invariant 0 <= n <= |old(items)| && Valid() && items == old(items)[n..]
        invariant forall k :: 0 <= k < n ==> old(items)[k].queue == null
        decreases |items|
      {
        var item := items[0];
        assert item in old(items);
        RemoveAt(0, item);
        n := n + 1;
      }
    }
  }

  const EIO: int := 5
  const ETIME: int := 62

  /** What the coroutine's fd set holds while Schedule tries to add it. */
  ghost function Merged(own: StEventQueue, fdset: StEventQueue, item: StEventItem?): seq<StEventItem>
    reads own, fdset
  {
    own.items + fdset.items + (if item == null then [] else var i: StEventItem := item; [i])
  }

  ghost function Only(item: StEventItem?): set<StEventItem>
  {
    if item == null then {} else var i: StEventItem := item; {i}
  }

  /** The active coroutine may go to sleep. */
  ghost predicate CanWait<T>(s: Sched<T>)
  {
    Quiet(s) && s.active != s.daemon && |s.heap| < s.cap
  }

  /** The active coroutine waits for its items and somebody else runs; or only its wakeup time changed. */
  ghost predicate Waiting<T>(s: Sched<T>, s': Sched<T>, deadline: int, ok: bool)
  {
    && s.active in s.th && s.th[s.active].link == Unlinked
    && (if ok then Inv(WaitForIo(s, deadline)) && s' == Yield(WaitForIo(s, deadline))
        else s' == SetWakeup(s, s.active, deadline))
  }

  function Owned(thread: StThreadItem?): (o: Option<StThreadItem>)
    ensures if thread == null then o == None else o.Some? && o.value == thread
  {
    if thread == null then None else var t: StThreadItem := thread; Some(t)
  }

  lemma Unroll(v: Events<StEventItem, StThreadItem>, s: Sched<StThreadItem>, fs: seq<Fired>, i: nat,
               v1: Events<StEventItem, StThreadItem>, s1: Sched<StThreadItem>)
    requires Dispatchable(v, s) && i < |fs| && Dispatched(v, s, fs[i], v1, s1)
    ensures Dispatchable(v1, s1)
    ensures EventDispatch.Dispatch(v, s, fs[i..]) == EventDispatch.Dispatch(v1, s1, fs[i + 1..])
  {
    DispatchOneKeeps(v, s, fs[i]);
    assert fs[i..][1..] == fs[i + 1..];
  }

  lemma NoMore(v: Events<StEventItem, StThreadItem>, s: Sched<StThreadItem>, fs: seq<Fired>)
    requires Dispatchable(v, s)
    ensures EventDispatch.Dispatch(v, s, fs[|fs|..]) == (v, s)
  {
  }

  lemma MergedAlone(own: StEventQueue, fdset: StEventQueue, item: StEventItem)
    requires own.items == [] && fdset.items == []
    ensures Merged(own, fdset, item) == [item] && Only(item) == {item}
  {
  }

  /** v' and ok are what adding the item alone makes of v. */
  ghost predicate AddedAlone(v: Events<StEventItem, StThreadItem>, i: StEventItem, refuse: set<StEventItem>,
                             v': Events<StEventItem, StThreadItem>, ok: bool)
  {
    TableInv(v) && Exist(v, [i]) && (v', ok) == EventModel.AddQueue(v, [i], refuse)
  }

  lemma AddedAre(v: Events<StEventItem, StThreadItem>, i: StEventItem, refuse: set<StEventItem>,
                 v': Events<StEventItem, StThreadItem>, ok: bool)
    requires TableInv(v) && Exist(v, [i]) && (v', ok) == EventModel.AddQueue(v, [i], refuse)
    ensures AddedAlone(v, i, refuse, v', ok)
  {
  }

  ghost predicate Dispatched(v: Events<StEventItem, StThreadItem>, s: Sched<StThreadItem>, f: Fired,
                             v': Events<StEventItem, StThreadItem>, s': Sched<StThreadItem>)
  {
    && TableInv(v) && Quiet(s) && (OwnerOf(v, f).Some? ==> OwnerOf(v, f).value in s.th)
    && (v', s') == EventDispatch.DispatchOne(v, s, f)
  }

  class StEventSchedule {
    const iostate: EpollState
    const slots: array<StEventItem?>
    ghost var items: set<StEventItem>      // the items that exist

    ghost function Table(): map<nat, StEventItem>
      reads slots
    {
      map fd: nat | fd < slots.Length && slots[fd] != null :: var i: StEventItem := slots[fd]; i
    }

    ghost function Values(): (m: map<StEventItem, Item<StThreadItem>>)
      reads `items, items`fd, items`events, items`revents, items`owner
      ensures m.Keys == items && forall i :: i in items ==> m[i] == i.Value()
    {
      map i | i in items :: i.Value()
    }

    ghost function View(): Events<StEventItem, StThreadItem>
      reads this, slots, iostate.file, iostate.kernel, items`fd, items`events, items`revents, items`owner
    {
      Events(iostate.View(), Table(), Values())
    }

    ghost predicate Valid()
      reads this, slots, iostate.file, iostate.kernel, items`fd, items`events, items`revents, items`owner
    {
      slots.Length == iostate.file.Length && slots as object != iostate.file && TableInv(View())
    }

    constructor (maxFd: nat, kernel: Kernel)
      requires kernel.reg == map[]
      ensures Valid() && items == {} && fresh(slots) && fresh(iostate.file) && iostate.kernel == kernel
              && fresh(iostate)
      ensures View().table == map[] && |View().io.cache| == maxFd
    {
      var io := new EpollState(maxFd, kernel);
      iostate := io;
      slots := new StEventItem?[maxFd](i => null);
      items := {};
    }

    /** The view at one descriptor and one item, for proofs that hide it. */
    lemma Sees(fd: int, i: StEventItem)
      requires Valid() && i in items
      ensures i in View().items && View().items[i] == i.Value() && |View().io.cache| == slots.Length
      ensures 0 <= fd < slots.Length ==>
                if slots[fd] == null then fd !in View().table
                else fd in View().table && View().table[fd] == slots[fd] && slots[fd] in items
      ensures View().io == iostate.View()
    {
    }

    /** Valid is the invariant of the view and a fact about fields that never change. */
    lemma ValidIs()
      requires slots.Length == iostate.file.Length && slots as object != iostate.file && TableInv(View())
      ensures Valid()
    {
    }

    lemma Fixed()
      requires Valid()
      ensures slots.Length == iostate.file.Length && slots as object != iostate.file && TableInv(View())
    {
    }

    method SetSlot(fd: nat, item: StEventItem?)
      requires fd < slots.Length && (item != null ==> item in items)
      modifies slots
      ensures var t: map<nat, StEventItem> := old(View()).table;
              View() == old(View()).(table := if item == null then t - {fd} else var i: StEventItem := item; t[fd := i])
    {
      slots[fd] := item;
    }

    method AddFd(fd: int, events: Mask, refused: bool) returns (ok: bool)
      requires Valid()
      modifies iostate.file, iostate.kernel`reg
      ensures if 0 <= fd < slots.Length then
                var (io, done) := EpollAdd(old(View()).io, fd, events, refused);
                ok == done && View() == old(View()).(io := io)
              else !ok && View() == old(View())
    {
      if fd < 0 || fd >= slots.Length {
        return false;
      }
      var rc := iostate.AddEvent(fd, events, refused);
      ok := rc >= 0;
    }

    method DeleteFd(fd: int, events: Mask) returns (ok: bool)
      requires Valid()
      modifies iostate.file, iostate.kernel`reg
      ensures Valid()
      ensures if 0 <= fd < slots.Length then (View(), ok) == EventModel.DeleteFd(old(View()), fd, events)
              else !ok && View() == old(View())
    {
      if fd < 0 || fd >= slots.Length {
        return false;
      }
      EpollRefines(View().io, fd, events, false);
      var rc := iostate.DelEvent(fd, events, false);
      ok := rc >= 0;
      hide TableInv;
    }

    method Add(item: StEventItem, refused: bool) returns (ok: bool)
      requires Valid() && item in items
      modifies slots, iostate.file, iostate.kernel`reg
      ensures Valid() && (View(), ok) == AddItem(old(View()), item, refused)
    {
      var osfd := item.fd;
      Sees(osfd, item);
      Fixed();
      hide TableInv, Valid, View;
      AddItemExact(View(), item, refused);
      if osfd >= slots.Length || osfd < 0 {
        return false;
      }
      EvictExact(View(), osfd, item);
      var oldItem := slots[osfd];
      if oldItem != null && oldItem != item {
        Sees(osfd, oldItem);
        var rc := DeleteFd(osfd, oldItem.events);
        SetSlot(osfd, null);
        ValidIs();
      }
      var rc := AddFd(osfd, item.events, refused);
      if !rc {
        ValidIs();
        return false;
      }
      SetSlot(osfd, item);
      ValidIs();
      return true;
    }

    method Delete(item: StEventItem) returns (ok: bool)
      requires Valid() && item in items
      modifies iostate.file, iostate.kernel`reg
      ensures Valid() && (View(), ok) == DeleteItem(old(View()), item)
    {
      var osfd := item.fd;
      Sees(osfd, item);
      Fixed();
      hide TableInv, Valid, View;
      DeleteItemExact(View(), item);
      if osfd >= slots.Length || osfd < 0 {
        return false;
      }
      var oldItem := slots[osfd];
      if oldItem == null {
        var rc := DeleteFd(osfd, item.events);
        return true;
      }
      if oldItem != item {
        return false;
      }
      ok := DeleteFd(osfd, item.events);
    }

    method ClearItem(item: StEventItem)
      requires Valid() && item in items
      modifies slots, iostate.file, iostate.kernel`reg
      ensures View() == EventModel.ClearItem(old(View()), item) && Valid()
    {
      Sees(item.fd, item);
      Fixed();
      hide TableInv, Valid, View;
      DeleteItemExact(View(), item);
      var ok := Delete(item);
      var osfd := item.fd;
      if osfd >= slots.Length || osfd < 0 {
        return;
      }
      SlotOut(View(), osfd);
      SetSlot(osfd, null);
      ValidIs();
    }

    lemma SlotOut(v: Events<StEventItem, StThreadItem>, fd: nat)
      requires TableInv(v)
      ensures TableInv(v.(table := v.table - {fd}))
    {
    }

    /** Add of a queue: on the first item that fails, the ones before it are deleted again. */
    method AddQueue(fdset: StEventQueue, refuse: set<StEventItem>) returns (ok: bool)
      requires Valid() && Exist(View(), fdset.items)
      modifies slots, iostate.file, iostate.kernel`reg
      ensures Valid() && (View(), ok) == EventModel.AddQueue(old(View()), fdset.items, refuse)
    {
      Fixed();
      var q := fdset.items;
      AddFromSame(View(), q, 0, refuse);
      hide TableInv, Valid, View, AddItem, DeleteItem, Same;
      var k := 0;
      ok := true;
      while ok && k < |q|
        invariant 0 <= k <= |q| && Valid() && TableInv(View()) && Exist(View(), q)
        invariant ok ==> AddFrom(View(), q, k, refuse) == AddFrom(old(View()), q, 0, refuse)
        invariant !ok ==> k < |q| && (View(), k) == AddFrom(old(View()), q, 0, refuse)
        decreases ok, |q| - k
      {
        AddItemExact(View(), q[k], q[k] in refuse);
        ItemsAre();
        ok := Add(q[k], q[k] in refuse);
        Fixed();
        if ok {
          k := k + 1;
        }
      }
      if !ok {
        DeleteFirst(q, k);
      }
    }

    /** Rollback of AddQueue. */
    method DeleteFirst(q: seq<StEventItem>, n: nat)
      requires Valid() && Exist(View(), q) && n <= |q|
      modifies iostate.file, iostate.kernel`reg
      ensures Valid() && View() == DeleteUpTo(old(View()), q, 0, n)
    {
      Fixed();
      hide TableInv, Valid, View, DeleteItem, Same;
      var j := 0;
      while j < n
        invariant 0 <= j <= n && Valid() && TableInv(View()) && Exist(View(), q)
        invariant DeleteUpTo(View(), q, j, n) == DeleteUpTo(old(View()), q, 0, n)
      {
        DeleteItemExact(View(), q[j]);
        ItemsAre();
        var rc := Delete(q[j]);
        Fixed();
        j := j + 1;
      }
    }

    /** Rollback of DeleteQueue. */
    method AddFirst(q: seq<StEventItem>, n: nat, refuse: set<StEventItem>)
      requires Valid() && Exist(View(), q) && n <= |q|
      modifies slots, iostate.file, iostate.kernel`reg
      ensures Valid() && View() == AddUpTo(old(View()), q, 0, n, refuse)
    {
      Fixed();
      hide TableInv, Valid, View, AddItem, Same;
      var j := 0;
      while j < n
        invariant 0 <= j <= n && Valid() && TableInv(View()) && Exist(View(), q)
        invariant AddUpTo(View(), q, j, n, refuse) == AddUpTo(old(View()), q, 0, n, refuse)
      {
        AddItemExact(View(), q[j], q[j] in refuse);
        ItemsAre();
        var rc := Add(q[j], q[j] in refuse);
        Fixed();
        j := j + 1;
      }
    }

    lemma ItemsAre()
      ensures View().items.Keys == items
    {
    }

    /** Delete of a queue: on the first item that fails, the ones before it are added again. */
    method DeleteQueue(fdset: StEventQueue, refuse: set<StEventItem>) returns (ok: bool)
      requires Valid() && Exist(View(), fdset.items)
      modifies slots, iostate.file, iostate.kernel`reg
      ensures Valid() && (View(), ok) == EventModel.DeleteQueue(old(View()), fdset.items, refuse)
    {
      Fixed();
      var q := fdset.items;
      DeleteFromSame(View(), q, 0);
      hide TableInv, Valid, View, AddItem, DeleteItem, Same;
      var k := 0;
      ok := true;
      while ok && k < |q|
        invariant 0 <= k <= |q| && Valid() && TableInv(View()) && Exist(View(), q)
        invariant ok ==> DeleteFrom(View(), q, k) == DeleteFrom(old(View()), q, 0)
        invariant !ok ==> k < |q| && (View(), k) == DeleteFrom(old(View()), q, 0)
        decreases ok, |q| - k
      {
        DeleteItemExact(View(), q[k]);
        ItemsAre();
        ok := Delete(q[k]);
        Fixed();
        if ok {
          k := k + 1;
        }
      }
      if !ok {
        AddFirst(q, k, refuse);
      }
    }

    /** The first half of Schedule, without the scheduler: the coroutine's fd set takes over the caller's
        queue and item and is added whole, or everything is put back. `saved` is errno after a failed
        Add; an empty queue stands for a null one as well. */
    method Merge(own: StEventQueue, fdset: StEventQueue, item: StEventItem?, refuse: set<StEventItem>, saved: int)
      returns (ok: bool, errno: int)
      requires Valid() && own.Valid() && fdset.Valid() && fdset != own
      requires item != null ==> item.queue == null
      requires Exist(View(), Merged(own, fdset, item))
      modifies slots, iostate.file, iostate.kernel`reg
      modifies own, own.items`queue, fdset, fdset.items`queue, Only(item)`queue
      ensures Valid() && own.Valid() && fdset.Valid()
      ensures (View(), ok) == EventModel.AddQueue(old(View()), old(Merged(own, fdset, item)), refuse)
      ensures ok ==> own.items == old(Merged(own, fdset, item)) && fdset.items == []
      ensures !ok ==>
                && own.items == old(own.items) && fdset.items == old(fdset.items)
                && (item != null ==> item.queue == null)
                && errno == if saved == 0 || saved == ETIME then EIO else saved
    {
      hide Valid, View, TableInv;
      errno := 0;
      var count := |fdset.items|;
      own.TakeAll(fdset);
      if item != null {
        own.Append(item);
      }
      assert own.items == old(Merged(own, fdset, item));
      ok := AddQueue(own, refuse);
      if !ok {
        if item != null {
          own.RemoveAt(|own.items| - 1, item);
        }
        assert own.items == old(own.items + fdset.items);
        fdset.TakeBack(own, count);
        errno := if saved == 0 || saved == ETIME then EIO else saved;
      }
    }

    /** Schedule of the active coroutine up to the switch: its items are added and it waits; or all is as
        before except its wakeup time, and no item added before the failing one, the n-th, keeps interest. */
    method ScheduleBegin(sched: StThreadSchedule, own: StEventQueue, fdset: StEventQueue, item: StEventItem?,
                         deadline: int, refuse: set<StEventItem>, saved: int)
      returns (ok: bool, errno: int, ghost n: nat)
      requires Valid() && own.Valid() && fdset.Valid() && fdset != own
      requires item != null ==> item.queue == null
      requires Exist(View(), Merged(own, fdset, item))
      requires sched.Valid() && CanWait(sched.View())
      modifies slots, iostate.file, iostate.kernel`reg
      modifies own, own.items`queue, fdset, fdset.items`queue, Only(item)`queue
      modifies sched, sched.pool, sched.sleepList, sched.sleepList.list, sched.threads
      ensures Valid() && own.Valid() && fdset.Valid() && sched.Valid()
      ensures (View(), ok) == EventModel.AddQueue(old(View()), old(Merged(own, fdset, item)), refuse)
      ensures Exist(old(View()), old(Merged(own, fdset, item)))
      ensures DistinctFds(old(View()), old(Merged(own, fdset, item))) ==>
                AllOrNone(old(View()), old(Merged(own, fdset, item)), View(), ok, n)
      ensures Waiting(old(sched.View()), sched.View(), deadline, ok)
      ensures ok ==> own.items == old(Merged(own, fdset, item)) && fdset.items == []
      ensures !ok ==>
                && own.items == old(own.items) && fdset.items == old(fdset.items)
                && (item != null ==> item.queue == null)
                && errno == if saved == 0 || saved == ETIME then EIO else saved
    {
      hide Valid, View, TableInv, StThreadSchedule.Valid, StThreadSchedule.View, CanWait, Waiting, StEventQueue.Valid,
        EventModel.AddQueue, AllOrNone;
      Fixed();
      n := 0;
      if DistinctFds(View(), Merged(own, fdset, item)) {
        n := AddQueueAllOrNone(View(), Merged(own, fdset, item), refuse);
      }
      ok, errno := Merge(own, fdset, item, refuse, saved);
      Park(sched, deadline, ok);
    }

    /** The wakeup time of the active coroutine is set; if its items were added it waits for them. */
    method Park(sched: StThreadSchedule, deadline: int, added: bool)
      requires sched.Valid() && CanWait(sched.View())
      modifies sched, sched.pool, sched.sleepList, sched.sleepList.list, sched.threads
      ensures sched.Valid() && Waiting(old(sched.View()), sched.View(), deadline, added)
    {
      WaitForIoReady(sched, deadline);
      hide StThreadSchedule.Valid, StThreadSchedule.View, Inv, Yield, SchedModel.InsertIOWait;
      sched.SetWakeupTime(sched.activeThread, deadline);
      if added {
        sched.Queue();
        sched.Sees(sched.activeThread);
        sched.InsertIOWait(sched.activeThread);
        sched.Queue();
        sched.Yield(sched.activeThread);
      }
    }

    lemma WaitForIoReady(sched: StThreadSchedule, deadline: int)
      requires sched.Valid() && CanWait(sched.View())
      ensures sched.View().active == sched.activeThread && sched.activeThread in sched.threads
      ensures sched.activeThread !in sched.sleepList.members && sched.activeThread.link == Unlinked
      ensures sched.View().th[sched.activeThread].link == Unlinked
      ensures Inv(WaitForIo(sched.View(), deadline))
    {
      hide Inv;
      WaitForIoExact(sched.View(), deadline);
      At(sched.View(), sched.activeThread);
      sched.NotInHeap(sched.activeThread);
    }

    /** Schedule from the switch on: the interest of every item goes, the fd set is emptied, and the
        result says whether any item has an event recorded. */
    method ScheduleEnd(own: StEventQueue, refuse: set<StEventItem>) returns (ok: bool, errno: int)
      requires Valid() && own.Valid() && Exist(View(), own.items)
      modifies slots, iostate.file, iostate.kernel`reg, own, own.items`queue
      ensures Valid() && own.Valid() && own.items == []
      ensures forall i :: i in old(own.items) ==> i.queue == null
      ensures View() == EventModel.DeleteQueue(old(View()), old(own.items), refuse).0
      ensures ok <==> exists k :: 0 <= k < |old(own.items)| && old(own.items)[k].revents != NONE
      ensures !ok ==> errno == ETIME
    {
      hide Valid, View, TableInv;
      errno := 0;
      var recv := 0;
      for k := 0 to |own.items|
        invariant recv > 0 <==> exists j :: 0 <= j < k && own.items[j].revents != NONE
        invariant recv >= 0
      {
        if own.items[k].revents != NONE {
          recv := recv + 1;
        }
      }
      var rc := DeleteQueue(own, refuse);
      own.Clear();
      ok := recv != 0;
      if !ok {
        errno := ETIME;
      }
    }

    method SetRecvEvents(item: StEventItem, mask: Mask)
      requires Valid() && item in items
      modifies item`revents
      ensures Valid()
      ensures View() == old(View()).(items := old(View()).items[item := old(item.Value()).(revents := mask)])
    {
      Revents(View(), item, mask);
      item.revents := mask;
      assert Values() == old(Values())[item := old(item.Value()).(revents := mask)];
      hide Values, Table;
    }

    lemma Revents(v: Events<StEventItem, StThreadItem>, item: StEventItem, mask: Mask)
      requires TableInv(v) && item in v.items
      ensures TableInv(v.(items := v.items[item := v.items[item].(revents := mask)]))
    {
    }

    /** EnableInput, DisableOutput and the like, and SetOwnerThread. */
    method SetInterest(item: StEventItem, mask: Mask, thread: StThreadItem)
      requires Valid() && item in items
      modifies item`events, item`owner
      ensures Valid() && View() == Watching(old(View()), item, mask, thread)
    {
      WatchingKeeps(View(), item, mask, thread);
      item.events := mask;
      item.owner := thread;
      assert Values() == old(Values())[item := old(item.Value()).(events := mask, owner := Some(thread))];
      hide Values, Table;
    }

    /** What WaitFdReady and st_wait share: the item of the descriptor gets the interest and the owner, and
        Schedule is called with it alone. */
    method WaitOn(sched: StThreadSchedule, own: StEventQueue, item: StEventItem, mask: Mask,
                  deadline: int, refuse: set<StEventItem>, saved: int)
      returns (ok: bool, errno: int)
      requires Valid() && own.Valid() && own.items == [] && item in items && item.queue == null
      requires sched.Valid() && CanWait(sched.View())
      modifies slots, iostate.file, iostate.kernel`reg, own, item`queue, item`events, item`owner
      modifies sched, sched.pool, sched.sleepList, sched.sleepList.list, sched.threads
      ensures Valid() && own.Valid() && sched.Valid() && item in old(View()).items
      ensures Waiting(old(sched.View()), sched.View(), deadline, ok)
      ensures AddedAlone(Watching(old(View()), item, mask, old(sched.activeThread)), item, refuse, View(), ok)
      ensures own.items == if ok then [item] else []
      ensures !ok ==> item.queue == null && errno == if saved == 0 || saved == ETIME then EIO else saved
    {
      hide *;
      Has(item);
      own.Vacant();
      SetInterest(item, mask, sched.activeThread);
      Fixed();
      ghost var v := View();
      var none := new StEventQueue();
      none.Vacant();
      MergedAlone(own, none, item);
      Has(item);
      own.Vacant();
      ghost var n;
      ok, errno, n := ScheduleBegin(sched, own, none, item, deadline, refuse, saved);
      AddedAre(v, item, refuse, View(), ok);
    }

    lemma Has(item: StEventItem)
      requires Valid() && item in items
      ensures item in View().items && View().items[item].events == item.events && Exist(View(), [item])
    {
    }

    /** The item in the slot of a descriptor. */
    ghost function Holder(fd: int): set<StEventItem>
      reads slots
    {
      if 0 <= fd < slots.Length then Only(slots[fd]) else {}
    }

    method GetEventItem(fd: int) returns (item: StEventItem?)
      requires Valid()
      ensures item == if 0 <= fd < slots.Length then slots[fd] else null
      ensures item != null ==> item in items && item in Holder(fd)
    {
      Slot(Fired(fd, NONE, 0, 0));
      if fd >= slots.Length || fd < 0 {
        return null;
      }
      return slots[fd];
    }

    /** The owner of a fired item, if it is an IO waiter, becomes runnable. */
    method Wake(sched: StThreadSchedule, thread: StThreadItem)
      requires sched.Valid() && Quiet(sched.View()) && thread in sched.threads
      modifies sched, sched.sleepList, sched.sleepList.list, sched.threads
      ensures sched.Valid() && sched.threads == old(sched.threads) && sched.sleepList.list == old(sched.sleepList.list)
      ensures thread in old(sched.View()).th && Quiet(sched.View())
      ensures old(sched.View()).th[thread].ioFlag ==> old(sched.View()).th[thread].link == InIo
      ensures sched.View() == WakeOwner(old(sched.View()), thread)
    {
      hide StThreadSchedule.Valid, StThreadSchedule.View, Inv, SchedModel.IOWaitToRunable;
      sched.Sees(thread);
      WakeOwnerKeeps(sched.View(), thread);
      if thread.ioFlag {
        sched.IOWaitToRunable(thread);
      }
    }

    /** The event is recorded in the item of its slot, whose owner is returned; an error clears the slot,
        an empty slot loses the interest that fired. */
    method TakeEvent(f: Fired) returns (thread: StThreadItem?)
      requires Valid()
      modifies slots, iostate.file, iostate.kernel`reg, items`revents
      ensures Valid() && TableInv(old(View())) && View() == EventStep(old(View()), f)
      ensures Owned(thread) == OwnerOf(old(View()), f)
    {
      Slot(f);
      EventStepKeeps(View(), f);
      hide Valid, View, TableInv, EventModel.ClearItem, EventModel.DeleteFd;
      if f.fd < 0 || f.fd >= slots.Length {
        return null;
      }
      var item := slots[f.fd];
      if item == null {
        var rc := DeleteFd(f.fd, f.mask);
        return null;
      }
      thread := item.owner;
      SetRecvEvents(item, f.mask);
      if f.mask.err {
        ClearItem(item);
      }
    }

    lemma Slot(f: Fired)
      requires Valid()
      ensures TableInv(View()) && |View().io.cache| == slots.Length
      ensures 0 <= f.fd < slots.Length ==>
                if slots[f.fd] == null then f.fd !in View().table
                else f.fd in View().table && View().table[f.fd] == slots[f.fd] && slots[f.fd] in items
                     && slots[f.fd] in View().items && View().items[slots[f.fd]] == slots[f.fd].Value()
    {
      if 0 <= f.fd < slots.Length && slots[f.fd] != null {
        assert f.fd in Table() && Table()[f.fd] == slots[f.fd];
        assert View().table[f.fd] in View().items;
      }
    }

    /** One pass of the loop in Dispatch. */
    method DispatchOne(sched: StThreadSchedule, f: Fired)
      requires Valid() && sched.Valid() && Dispatchable(View(), sched.View())
      modifies slots, iostate.file, iostate.kernel`reg, items`revents
      modifies sched, sched.sleepList, sched.sleepList.list, sched.threads
      ensures Valid() && sched.Valid() && sched.threads == old(sched.threads)
      ensures sched.sleepList.list == old(sched.sleepList.list)
      ensures Dispatched(old(View()), old(sched.View()), f, View(), sched.View())
    {
      hide *;
      DispatchReady(sched, f);
      var thread := TakeEvent(f);
      Report(sched, thread, f);
      AreDispatched(old(View()), old(sched.View()), f, View(), sched.View(), thread);
    }

    /** The loop over m_fired_. */
    method Dispatch(sched: StThreadSchedule, fs: seq<Fired>)
      requires Valid() && sched.Valid() && Dispatchable(View(), sched.View())
      modifies slots, iostate.file, iostate.kernel`reg, items`revents
      modifies sched, sched.sleepList, sched.sleepList.list, sched.threads
      ensures Valid() && sched.Valid() && sched.threads == old(sched.threads)
      ensures Dispatchable(old(View()), old(sched.View())) && sched.sleepList.list == old(sched.sleepList.list)
      ensures (View(), sched.View()) == EventDispatch.Dispatch(old(View()), old(sched.View()), fs)
    {
      hide *;
      assert fs[0..] == fs;
      var i := 0;
      while i < |fs|
        invariant 0 <= i <= |fs| && Valid() && sched.Valid() && sched.threads == old(sched.threads)
        invariant sched.sleepList.list == old(sched.sleepList.list)
        invariant Dispatchable(View(), sched.View())
        invariant EventDispatch.Dispatch(View(), sched.View(), fs[i..])
               == EventDispatch.Dispatch(old(View()), old(sched.View()), fs)
      {
        ghost var v, s := View(), sched.View();
        DispatchOne(sched, fs[i]);
        Unroll(v, s, fs, i, View(), sched.View());
        i := i + 1;
      }
      NoMore(View(), sched.View(), fs);
    }

    lemma DispatchReady(sched: StThreadSchedule, f: Fired)
      requires Valid() && sched.Valid() && Dispatchable(View(), sched.View())
      ensures TableInv(View()) && Quiet(sched.View())
      ensures OwnerOf(View(), f).Some? ==> OwnerOf(View(), f).value in sched.threads
      ensures OwnerOf(View(), f).Some? ==> OwnerOf(View(), f).value in sched.View().th
    {
      hide Inv;
      OwnerIsLive(View(), sched.View(), f);
    }

    lemma AreDispatched(v: Events<StEventItem, StThreadItem>, s: Sched<StThreadItem>, f: Fired,
                        v': Events<StEventItem, StThreadItem>, s': Sched<StThreadItem>, thread: StThreadItem?)
      requires TableInv(v) && Quiet(s) && (OwnerOf(v, f).Some? ==> OwnerOf(v, f).value in s.th)
      requires v' == EventStep(v, f) && Owned(thread) == OwnerOf(v, f)
      requires s' == EventDispatch.Report(s, Owned(thread), f)
      ensures Dispatched(v, s, f, v', s')
    {
    }

    /** An error wakes the owner; else the read and the write bit are handled. */
    method Report(sched: StThreadSchedule, thread: StThreadItem?, f: Fired)
      requires sched.Valid() && Quiet(sched.View()) && (thread != null ==> thread in sched.threads)
      modifies sched, sched.sleepList, sched.sleepList.list, sched.threads
      ensures sched.Valid() && sched.threads == old(sched.threads) && sched.sleepList.list == old(sched.sleepList.list)
      ensures thread != null ==> thread in old(sched.View()).th
      ensures sched.View() == EventDispatch.Report(old(sched.View()), Owned(thread), f)
    {
      hide StThreadSchedule.Valid, StThreadSchedule.View, Inv, WakeOwner, EventDispatch.HandleBits;
      if thread != null {
        sched.Sees(thread);
        if f.mask.err {
          Wake(sched, thread);
        } else {
          HandleBits(sched, thread, f);
        }
      }
    }

    method HandleBits(sched: StThreadSchedule, thread: StThreadItem, f: Fired)
      requires sched.Valid() && Quiet(sched.View()) && thread in sched.threads
      modifies sched, sched.sleepList, sched.sleepList.list, sched.threads
      ensures sched.Valid() && sched.threads == old(sched.threads) && sched.sleepList.list == old(sched.sleepList.list)
      ensures thread in old(sched.View()).th
      ensures sched.View() == EventDispatch.HandleBits(old(sched.View()), thread, f)
    {
      hide StThreadSchedule.Valid, StThreadSchedule.View, Inv, WakeOwner;
      sched.Sees(thread);
      WakeOwnerKeeps(sched.View(), thread);
      if f.mask.read {
        if f.input != 0 {
          return;
        }
        Wake(sched, thread);
      }
      if f.mask.write {
        if f.output != 0 {
          return;
        }
        Wake(sched, thread);
      }
    }
  }
}
