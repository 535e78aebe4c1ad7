/** StEventSchedule of src/st_thread.cc on values: the table from descriptors to items over the epoll
    backend, adding and deleting whole queues with rollback, and the dispatch of fired events. */
module EventModel {
  import opened Queues
  import opened PollModel

  /** StEventItem: m_fd_, m_events_, m_revents_ and m_thread_. */
  datatype Item<T> = Item(fd: int, events: Mask, revents: Mask, owner: Option<T>)

  /** The poll state, m_event_ without its null slots, and the items that exist. */
  datatype Events<I(==), T> = Events(io: Io, table: map<nat, I>, items: map<I, Item<T>>)

  predicate ValidFd<I(==), T>(v: Events<I, T>, fd: int)
  {
    0 <= fd < |v.io.cache|
  }

  /** The table holds existing items, each in the slot of its own descriptor. */
  ghost predicate TableInv<I, T>(v: Events<I, T>)
  {
    && Synced(v.io, true)
    && (forall fd :: fd in v.table ==> fd < |v.io.cache| && v.table[fd] in v.items && v.items[v.table[fd]].fd == fd)
  }

  /** DeleteFd; a descriptor's interest is only reduced here, which the kernel does not refuse. */
  function DeleteFd<I(==), T>(v: Events<I, T>, fd: nat, events: Mask): (Events<I, T>, bool)
    requires fd < |v.io.cache|
  {
    var (io1, ok) := EpollDel(v.io, fd, events, false);
    (v.(io := io1), ok)
  }

  /** Put whatever other item holds the slot out of it. */
  function Evict<I(==), T>(v: Events<I, T>, fd: nat, i: I): Events<I, T>
    requires TableInv(v) && fd < |v.io.cache|
  {
    if fd in v.table && v.table[fd] != i
      then DeleteFd(v, fd, v.items[v.table[fd]].events).0.(table := v.table - {fd}) else v
  }

  /** Add of one item. An item that holds the slot without this one is put out of it first. */
  function AddItem<I(==), T>(v: Events<I, T>, i: I, refused: bool): (r: (Events<I, T>, bool))
    requires TableInv(v) && i in v.items
  {
    var fd := v.items[i].fd;
    if !ValidFd(v, fd) then (v, false)
    else
      var v1 := Evict(v, fd, i);
      var (io2, ok) := EpollAdd(v1.io, fd, v.items[i].events, refused);
      if ok then (v1.(io := io2, table := v1.table[fd := i]), true) else (v1.(io := io2), false)
  }

  /** Delete of one item: its interest goes, its slot stays. */
  function DeleteItem<I(==), T>(v: Events<I, T>, i: I): (r: (Events<I, T>, bool))
    requires i in v.items
  {
    var fd := v.items[i].fd;
    if !ValidFd(v, fd) then (v, false)
    else if fd !in v.table then (DeleteFd(v, fd, v.items[i].events).0, true)
    else if v.table[fd] != i then (v, false)
    else DeleteFd(v, fd, v.items[i].events)
  }

  function ClearItem<I(==), T>(v: Events<I, T>, i: I): Events<I, T>
    requires i in v.items
  {
    var v1 := DeleteItem(v, i).0;
    if ValidFd(v, v.items[i].fd) then v1.(table := v1.table - {v.items[i].fd}) else v1
  }

  /** Item i with new interest and a new owner. */
  function Watching<I(==), T>(v: Events<I, T>, i: I, mask: Mask, thread: T): Events<I, T>
    requires i in v.items
  {
    v.(items := v.items[i := v.items[i].(events := mask, owner := Some(thread))])
  }

  lemma WatchingKeeps<I, T>(v: Events<I, T>, i: I, mask: Mask, thread: T)
    requires TableInv(v) && i in v.items
    ensures TableInv(Watching(v, i, mask, thread))
  {
  }

  // ---------- one descriptor ----------

  /** The state differs at descriptor fd only. */
  ghost predicate OnlyAt<I, T>(v: Events<I, T>, v': Events<I, T>, fd: int)
  {
    && v'.items == v.items && v'.io.open == v.io.open && |v'.io.cache| == |v.io.cache|
    && (forall x: nat {:trigger Same(v, v', x)} :: x != fd ==> Same(v, v', x))
  }

  /** Descriptor x has the same slot, mask and registration in both. */
  ghost predicate Same<I, T>(v: Events<I, T>, v': Events<I, T>, x: nat)
  {
    && (x in v'.table <==> x in v.table) && (x in v.table ==> v'.table[x] == v.table[x])
    && (x in v'.io.reg <==> x in v.io.reg) && (x in v.io.reg ==> v'.io.reg[x] == v.io.reg[x])
    && |v'.io.cache| == |v.io.cache| && (x < |v.io.cache| ==> v'.io.cache[x] == v.io.cache[x])
  }

  /** Item i holds the slot of its descriptor, and the kernel holds its interest. */
  ghost predicate Armed<I, T>(v: Events<I, T>, i: I)
  {
    && i in v.items && ValidFd(v, v.items[i].fd)
    && var fd: nat := v.items[i].fd;
       && fd in v.table && v.table[fd] == i && v.io.cache[fd] == v.items[i].events
       && Registered(v.io, fd) == Interest(v.items[i].events)
  }

  /** Item i holds the slot of its descriptor, and the kernel holds no interest. */
  ghost predicate Disarmed<I, T>(v: Events<I, T>, i: I)
  {
    && i in v.items && ValidFd(v, v.items[i].fd)
    && var fd: nat := v.items[i].fd;
       fd in v.table && v.table[fd] == i && v.io.cache[fd] == NONE && Registered(v.io, fd) == NONE
  }

  /** The backend takes the item's interest: the descriptor has it, or is open and the kernel agrees. */
  ghost predicate Takes<T>(io: Io, item: Item<T>, refused: bool)
    requires 0 <= item.fd < |io.cache|
  {
    io.cache[item.fd] == item.events || (item.fd in io.open && !refused)
  }

  /** Adding an item arms it, or fails; either way only its descriptor is touched. */
  lemma AddItemExact<I, T>(v: Events<I, T>, i: I, refused: bool)
    requires TableInv(v) && i in v.items
    ensures var (v', ok) := AddItem(v, i, refused);
            && TableInv(v') && OnlyAt(v, v', v.items[i].fd)
            && (ok ==> Armed(v', i))
            && (ok <==> ValidFd(v, v.items[i].fd) && Takes(Evict(v, v.items[i].fd, i).io, v.items[i], refused))
  {
    hide TableInv, OnlyAt, Armed, Takes;
    var fd := v.items[i].fd;
    if ValidFd(v, fd) {
      EvictExact(v, fd, i);
      AddToSlot(Evict(v, fd, i), i, refused);
      OnlyAtTwice(v, Evict(v, fd, i), AddItem(v, i, refused).0, fd);
    } else {
      OnlyAtRefl(v, fd);
    }
  }

  lemma OnlyAtTwice<I, T>(v: Events<I, T>, v1: Events<I, T>, v2: Events<I, T>, fd: int)
    requires OnlyAt(v, v1, fd) && OnlyAt(v1, v2, fd)
    ensures OnlyAt(v, v2, fd)
  {
    forall x: nat | x != fd
      ensures Same(v, v2, x)
    {
      assert Same(v, v1, x) && Same(v1, v2, x);
    }
  }

  lemma OnlyAtRefl<I, T>(v: Events<I, T>, fd: int)
    ensures OnlyAt(v, v, fd)
  {
  }

  lemma EvictExact<I, T>(v: Events<I, T>, fd: nat, i: I)
    requires TableInv(v) && fd < |v.io.cache|
    ensures var v1 := Evict(v, fd, i);
            && TableInv(v1) && OnlyAt(v, v1, fd) && v1.items == v.items && |v1.io.cache| == |v.io.cache|
            && (fd in v1.table ==> v1.table[fd] == i)
  {
    if fd in v.table && v.table[fd] != i {
      EpollRefines(v.io, fd, v.items[v.table[fd]].events, false);
    }
  }

  /** AddItem when nobody else holds the slot. */
  lemma AddToSlot<I, T>(v: Events<I, T>, i: I, refused: bool)
    requires TableInv(v) && i in v.items && ValidFd(v, v.items[i].fd)
    requires v.items[i].fd in v.table ==> v.table[v.items[i].fd] == i
    ensures var (v', ok) := AddItem(v, i, refused);
            && TableInv(v') && OnlyAt(v, v', v.items[i].fd)
            && (ok ==> Armed(v', i)) && (ok <==> Takes(v.io, v.items[i], refused))
  {
    EpollRefines(v.io, v.items[i].fd, v.items[i].events, refused);
  }

  /** Deleting an armed item disarms it; deleting any item touches its descriptor only. */
  lemma DeleteItemExact<I, T>(v: Events<I, T>, i: I)
    requires TableInv(v) && i in v.items
    ensures var (v', ok) := DeleteItem(v, i);
            && TableInv(v') && OnlyAt(v, v', v.items[i].fd) && v'.table == v.table
            && (ok <==> ValidFd(v, v.items[i].fd) && (v.items[i].fd in v.table ==> v.table[v.items[i].fd] == i))
            && (Armed(v, i) ==> Disarmed(v', i))
  {
    var fd := v.items[i].fd;
    if ValidFd(v, fd) {
      EpollRefines(v.io, fd, v.items[i].events, false);
    }
  }

  // ---------- queues ----------

  ghost predicate Exist<I, T>(v: Events<I, T>, q: seq<I>)
  {
    forall k :: 0 <= k < |q| ==> q[k] in v.items
  }

  /** The items of the queue watch different descriptors. */
  ghost predicate DistinctFds<I, T>(v: Events<I, T>, q: seq<I>)
    requires Exist(v, q)
  {
    forall j, k :: 0 <= j < k < |q| ==> v.items[q[j]].fd != v.items[q[k]].fd
  }

  /** Add the items from k on, up to the first that fails; `refuse` are those the kernel refuses. */
  function AddFrom<I(==), T>(v: Events<I, T>, q: seq<I>, k: nat, refuse: set<I>): (r: (Events<I, T>, nat))
    requires TableInv(v) && Exist(v, q) && k <= |q|
    ensures k <= r.1 <= |q|
    decreases |q| - k
  {
    if k == |q| then (v, k)
    else
      AddItemExact(v, q[k], q[k] in refuse);
      var (v1, ok) := AddItem(v, q[k], q[k] in refuse);
      if ok then AddFrom(v1, q, k + 1, refuse) else (v1, k)
  }

  /** Delete the items before n, from k on, whatever comes of it. */
  function DeleteUpTo<I(==), T>(v: Events<I, T>, q: seq<I>, k: nat, n: nat): Events<I, T>
    requires TableInv(v) && Exist(v, q) && k <= n <= |q|
    decreases n - k
  {
    if k == n then v
    else
      DeleteItemExact(v, q[k]);
      DeleteUpTo(DeleteItem(v, q[k]).0, q, k + 1, n)
  }

  /** Add of a queue: all of it, or none. */
  function AddQueue<I(==), T>(v: Events<I, T>, q: seq<I>, refuse: set<I>): (r: (Events<I, T>, bool))
    requires TableInv(v) && Exist(v, q)
  {
    AddFromSame(v, q, 0, refuse);
    var (v1, n) := AddFrom(v, q, 0, refuse);
    if n == |q| then (v1, true) else (DeleteUpTo(v1, q, 0, n), false)
  }

  /** x is the descriptor of one of the items k to n-1. */
  ghost predicate Watched<I, T>(v: Events<I, T>, q: seq<I>, k: int, n: int, x: int)
  {
    exists j :: k <= j < n && 0 <= j < |q| && q[j] in v.items && v.items[q[j]].fd == x
  }

  lemma SameTwice<I, T>(v: Events<I, T>, v1: Events<I, T>, v2: Events<I, T>, x: nat)
    requires Same(v, v1, x) && Same(v1, v2, x)
    ensures Same(v, v2, x)
  {
  }

  lemma ArmedStays<I, T>(v: Events<I, T>, v': Events<I, T>, i: I, fd: int)
    requires OnlyAt(v, v', fd) && i in v.items && v.items[i].fd != fd
    ensures Armed(v, i) ==> Armed(v', i)
    ensures Disarmed(v, i) ==> Disarmed(v', i)
  {
    if ValidFd(v, v.items[i].fd) {
      assert Same(v, v', v.items[i].fd);
    }
  }

  /** Adding a stretch of the queue touches the descriptors it reaches only. */
  lemma {:induction false} AddFromSame<I, T>(v: Events<I, T>, q: seq<I>, k: nat, refuse: set<I>)
    requires TableInv(v) && Exist(v, q) && k <= |q|
    ensures var (v', n) := AddFrom(v, q, k, refuse);
            && TableInv(v') && v'.items == v.items && v'.io.open == v.io.open
            && (forall x: nat {:trigger Same(v, v', x)} :: !Watched(v, q, k, n + 1, x) ==> Same(v, v', x))
    decreases |q| - k
  {
    hide TableInv, Same, Watched, AddItem;
    if k < |q| {
      AddItemExact(v, q[k], q[k] in refuse);
      var (v1, ok) := AddItem(v, q[k], q[k] in refuse);
      var (v', n) := AddFrom(v, q, k, refuse);
      if ok {
        AddFromSame(v1, q, k + 1, refuse);
      } else {
        SameRefl(v1);
      }
      SameAfterHead(v, v1, v', q, k, n + 1);
    } else {
      SameRefl(v);
    }
  }

  lemma SameAfterHead<I, T>(v: Events<I, T>, v1: Events<I, T>, v': Events<I, T>, q: seq<I>, k: nat, n: nat)
    requires k < |q| && k < n && q[k] in v.items && OnlyAt(v, v1, v.items[q[k]].fd)
    requires forall x: nat {:trigger Same(v1, v', x)} :: !Watched(v1, q, k + 1, n, x) ==> Same(v1, v', x)
    ensures forall x: nat {:trigger Same(v, v', x)} :: !Watched(v, q, k, n, x) ==> Same(v, v', x)
  {
    hide Same;
    forall x: nat | !Watched(v, q, k, n, x)
      ensures Same(v, v', x)
    {
      assert Same(v, v1, x);
      assert !Watched(v1, q, k + 1, n, x);
      assert Same(v1, v', x);
      SameTwice(v, v1, v', x);
    }
  }

  /** Adding a stretch of items on different descriptors arms those it got to. */
  lemma {:induction false} AddFromArms<I, T>(v: Events<I, T>, q: seq<I>, k: nat, refuse: set<I>)
    requires TableInv(v) && Exist(v, q) && k <= |q| && DistinctFds(v, q)
    ensures var (v', n) := AddFrom(v, q, k, refuse);
            forall j :: k <= j < n ==> Armed(v', q[j])
    decreases |q| - k
  {
    hide TableInv, Armed, Same, Watched, AddItem;
    if k < |q| {
      AddItemExact(v, q[k], q[k] in refuse);
      var (v1, ok) := AddItem(v, q[k], q[k] in refuse);
      if ok {
        AddFromSame(v1, q, k + 1, refuse);
        AddFromArms(v1, q, k + 1, refuse);
        var (v', n) := AddFrom(v1, q, k + 1, refuse);
        HeadStaysArmed(v1, v', q, k, n);
      }
    }
  }

  lemma SameRefl<I, T>(v: Events<I, T>)
    ensures forall x: nat {:trigger Same(v, v, x)} :: Same(v, v, x)
  {
  }

  lemma HeadStaysArmed<I, T>(v1: Events<I, T>, v': Events<I, T>, q: seq<I>, k: nat, n: nat)
    requires Exist(v1, q) && DistinctFds(v1, q) && k < |q| && n <= |q| && v'.items == v1.items
    requires Armed(v1, q[k])
    requires forall x: nat {:trigger Same(v1, v', x)} :: !Watched(v1, q, k + 1, n + 1, x) ==> Same(v1, v', x)
    ensures Armed(v', q[k])
  {
    assert Same(v1, v', v1.items[q[k]].fd);
  }

  /** What deleting a stretch of armed items does. */
  lemma {:induction false} DeleteUpToExact<I, T>(v: Events<I, T>, q: seq<I>, k: nat, n: nat)
    requires TableInv(v) && Exist(v, q) && DistinctFds(v, q) && k <= n <= |q|
    requires forall j :: k <= j < n ==> Armed(v, q[j])
    requires forall j :: 0 <= j < k ==> Disarmed(v, q[j])
    ensures var v' := DeleteUpTo(v, q, k, n);
            && TableInv(v') && v'.items == v.items && v'.io.open == v.io.open && v'.table == v.table
            && (forall j :: 0 <= j < n ==> Disarmed(v', q[j]))
            && (forall x: nat {:trigger Same(v, v', x)} :: !Watched(v, q, k, n, x) ==> Same(v, v', x))
    decreases n - k
  {
    hide TableInv, Armed, Disarmed, Same;
    if k < n {
      DeleteItemExact(v, q[k]);
      var v1 := DeleteItem(v, q[k]).0;
      forall j | 0 <= j < n && j != k
        ensures k < j ==> Armed(v1, q[j])
        ensures j < k ==> Disarmed(v1, q[j])
      {
        ArmedStays(v, v1, q[j], v.items[q[k]].fd);
      }
      DeleteUpToExact(v1, q, k + 1, n);
      SameAfterHead(v, v1, DeleteUpTo(v, q, k, n), q, k, n);
    } else {
      SameRefl(v);
    }
  }

  /** From v to v' every item of the queue was armed and nothing else touched; or item n failed, and then no
      item before it keeps interest in the kernel, and every descriptor but theirs and the failing one's is
      as before. */
  ghost predicate AllOrNone<I, T>(v: Events<I, T>, q: seq<I>, v': Events<I, T>, ok: bool, n: nat)
    requires Exist(v, q)
  {
    && n <= |q| && v'.items == v.items && v'.io.open == v.io.open && (ok <==> n == |q|)
    && (forall j :: 0 <= j < n ==> if ok then Armed(v', q[j]) else Disarmed(v', q[j]))
    && (forall x: nat {:trigger Same(v, v', x)} :: !Watched(v, q, 0, n + 1, x) ==> Same(v, v', x))
  }

  /** Adding a queue of items on different descriptors. */
  lemma AddQueueAllOrNone<I, T>(v: Events<I, T>, q: seq<I>, refuse: set<I>) returns (n: nat)
    requires TableInv(v) && Exist(v, q) && DistinctFds(v, q)
    ensures var (v', ok) := AddQueue(v, q, refuse); TableInv(v') && AllOrNone(v, q, v', ok, n)
  {
    hide TableInv, Armed, Disarmed, Same;
    AddFromSame(v, q, 0, refuse);
    AddFromArms(v, q, 0, refuse);
    var v1 := AddFrom(v, q, 0, refuse).0;
    n := AddFrom(v, q, 0, refuse).1;
    if n < |q| {
      DeleteUpToExact(v1, q, 0, n);
      var v' := AddQueue(v, q, refuse).0;
      forall x: nat | !Watched(v, q, 0, n + 1, x)
        ensures Same(v, v', x)
      {
        assert Same(v, v1, x);
        assert !Watched(v1, q, 0, n, x);
        assert Same(v1, v', x);
        SameTwice(v, v1, v', x);
      }
    }
  }

  /** Delete the items from k on, up to the first that fails. */
  function DeleteFrom<I(==), T>(v: Events<I, T>, q: seq<I>, k: nat): (r: (Events<I, T>, nat))
    requires TableInv(v) && Exist(v, q) && k <= |q|
    ensures k <= r.1 <= |q|
    decreases |q| - k
  {
    if k == |q| then (v, k)
    else
      DeleteItemExact(v, q[k]);
      var (v1, ok) := DeleteItem(v, q[k]);
      if ok then DeleteFrom(v1, q, k + 1) else (v1, k)
  }

  /** Add the items before n, from k on, whatever comes of it. */
  function AddUpTo<I(==), T>(v: Events<I, T>, q: seq<I>, k: nat, n: nat, refuse: set<I>): Events<I, T>
    requires TableInv(v) && Exist(v, q) && k <= n <= |q|
    decreases n - k
  {
    if k == n then v
    else
      AddItemExact(v, q[k], q[k] in refuse);
      AddUpTo(AddItem(v, q[k], q[k] in refuse).0, q, k + 1, n, refuse)
  }

  /** Delete of a queue; when an item fails, the ones before it are added again. */
  function DeleteQueue<I(==), T>(v: Events<I, T>, q: seq<I>, refuse: set<I>): (r: (Events<I, T>, bool))
    requires TableInv(v) && Exist(v, q)
  {
    DeleteFromSame(v, q, 0);
    var (v1, n) := DeleteFrom(v, q, 0);
    if n == |q| then (v1, true) else (AddUpTo(v1, q, 0, n, refuse), false)
  }

  lemma {:induction false} DeleteFromSame<I, T>(v: Events<I, T>, q: seq<I>, k: nat)
    requires TableInv(v) && Exist(v, q) && k <= |q|
    ensures var (v', n) := DeleteFrom(v, q, k);
            && TableInv(v') && v'.items == v.items && v'.io.open == v.io.open && v'.table == v.table
            && |v'.io.cache| == |v.io.cache|
            && (forall x: nat {:trigger Same(v, v', x)} :: !Watched(v, q, k, n + 1, x) ==> Same(v, v', x))
    decreases |q| - k
  {
    hide TableInv, Same, Watched, DeleteItem;
    if k < |q| {
      DeleteItemExact(v, q[k]);
      var (v1, ok) := DeleteItem(v, q[k]);
      var (v', n) := DeleteFrom(v, q, k);
      if ok {
        DeleteFromSame(v1, q, k + 1);
      } else {
        SameRefl(v1);
      }
      SameAfterHead(v, v1, v', q, k, n + 1);
    } else {
      SameRefl(v);
    }
  }

  /** The slot of item i's descriptor is empty or holds i: Delete of i succeeds. */
  ghost predicate Deletable<I, T>(v: Events<I, T>, i: I)
    requires i in v.items
  {
    ValidFd(v, v.items[i].fd) && (v.items[i].fd in v.table ==> v.table[v.items[i].fd] == i)
  }

  /** Deleting a queue of items on different descriptors gets as far as the first item whose slot
      another item holds, and disarms every armed item before it. */
  lemma {:induction false} DeleteFromDisarms<I, T>(v: Events<I, T>, q: seq<I>, k: nat)
    requires TableInv(v) && Exist(v, q) && k <= |q| && DistinctFds(v, q)
    ensures var (v', n) := DeleteFrom(v, q, k);
            && (forall j :: k <= j < n ==> Deletable(v, q[j]) && (Armed(v, q[j]) ==> Disarmed(v', q[j])))
            && (n < |q| ==> !Deletable(v, q[n]))
    decreases |q| - k
  {
    hide TableInv, Armed, Same, Watched, DeleteItem, Disarmed;
    if k < |q| {
      DeleteItemExact(v, q[k]);
      var (v1, ok) := DeleteItem(v, q[k]);
      if ok {
        DeleteFromSame(v1, q, k + 1);
        DeleteFromDisarms(v1, q, k + 1);
        var (v', n) := DeleteFrom(v1, q, k + 1);
        HeadStaysDisarmed(v1, v', q, k, n);
        forall j | k < j < n
          ensures Armed(v, q[j]) ==> Armed(v1, q[j])
        {
          ArmedStays(v, v1, q[j], v.items[q[k]].fd);
        }
      }
    }
  }

  lemma HeadStaysDisarmed<I, T>(v1: Events<I, T>, v': Events<I, T>, q: seq<I>, k: nat, n: nat)
    requires Exist(v1, q) && DistinctFds(v1, q) && k < |q| && n <= |q| && v'.items == v1.items
    requires forall x: nat {:trigger Same(v1, v', x)} :: !Watched(v1, q, k + 1, n + 1, x) ==> Same(v1, v', x)
    ensures Disarmed(v1, q[k]) ==> Disarmed(v', q[k])
  {
    if Disarmed(v1, q[k]) {
      assert Same(v1, v', v1.items[q[k]].fd);
    }
  }

  /** Delete of a queue of armed items on different descriptors disarms each and touches nothing else. */
  lemma DeleteQueueDisarms<I, T>(v: Events<I, T>, q: seq<I>, refuse: set<I>)
    requires TableInv(v) && Exist(v, q) && DistinctFds(v, q)
    requires forall j :: 0 <= j < |q| ==> Armed(v, q[j])
    ensures var (v', ok) := DeleteQueue(v, q, refuse);
            && ok && TableInv(v') && v'.items == v.items && v'.table == v.table
            && (forall j :: 0 <= j < |q| ==> Disarmed(v', q[j]))
            && (forall x: nat {:trigger Same(v, v', x)} :: !Watched(v, q, 0, |q| + 1, x) ==> Same(v, v', x))
  {
    hide TableInv, Same, Watched;
    DeleteFromSame(v, q, 0);
    DeleteFromDisarms(v, q, 0);
    assert forall j :: 0 <= j < |q| ==> Armed(v, q[j]) ==> Deletable(v, q[j]);
  }

  /** The item's descriptor can be armed and the kernel does not refuse it. */
  ghost predicate Restorable<I, T>(v: Events<I, T>, i: I, refuse: set<I>)
  {
    i in v.items && ValidFd(v, v.items[i].fd) && v.items[i].fd in v.io.open && i !in refuse
  }

  /** Adding a stretch of items on different descriptors arms those that can be. */
  lemma {:induction false} AddUpToArms<I, T>(v: Events<I, T>, q: seq<I>, k: nat, n: nat, refuse: set<I>)
    requires TableInv(v) && Exist(v, q) && DistinctFds(v, q) && k <= n <= |q|
    ensures var v' := AddUpTo(v, q, k, n, refuse);
            && TableInv(v') && v'.items == v.items && v'.io.open == v.io.open
            && (forall j :: k <= j < n && Restorable(v, q[j], refuse) ==> Armed(v', q[j]))
            && (forall x: nat {:trigger Same(v, v', x)} :: !Watched(v, q, k, n, x) ==> Same(v, v', x))
    decreases n - k
  {
    hide TableInv, Armed, Same, AddItem, OnlyAt;
    if k < n {
      AddItemExact(v, q[k], q[k] in refuse);
      var v1 := AddItem(v, q[k], q[k] in refuse).0;
      var v' := AddUpTo(v, q, k, n, refuse);
      OnlyAtFrame(v, v1, v.items[q[k]].fd);
      AddUpToArms(v1, q, k + 1, n, refuse);
      if Restorable(v, q[k], refuse) {
        CanTake(v, q[k], refuse);
        HeadStaysArmed(v1, v', q, k, n - 1);
      }
      SameAfterHead(v, v1, v', q, k, n);
    } else {
      SameRefl(v);
    }
  }

  lemma OnlyAtFrame<I, T>(v: Events<I, T>, v': Events<I, T>, fd: int)
    requires OnlyAt(v, v', fd)
    ensures v'.items == v.items && v'.io.open == v.io.open && |v'.io.cache| == |v.io.cache|
  {
  }

  lemma CanTake<I, T>(v: Events<I, T>, i: I, refuse: set<I>)
    requires TableInv(v) && Restorable(v, i, refuse)
    ensures AddItem(v, i, i in refuse).1
  {
    AddItemExact(v, i, i in refuse);
    EvictExact(v, v.items[i].fd, i);
  }

  /** Delete of a queue of items on different descriptors succeeds if and only if no other item holds the slot of
      one; if it fails, the items before the failing one are armed again, as far as the kernel agrees, and
      nothing else is touched. */
  lemma DeleteQueueRollsBack<I, T>(v: Events<I, T>, q: seq<I>, refuse: set<I>) returns (n: nat)
    requires TableInv(v) && Exist(v, q) && DistinctFds(v, q)
    ensures var (v', ok) := DeleteQueue(v, q, refuse);
            && TableInv(v') && v'.items == v.items && n <= |q| && (ok <==> n == |q|)
            && (forall j :: 0 <= j < n ==> Deletable(v, q[j])) && (n < |q| ==> !Deletable(v, q[n]))
            && (!ok ==> forall j :: 0 <= j < n && Restorable(v, q[j], refuse) ==> Armed(v', q[j]))
            && (forall x: nat {:trigger Same(v, v', x)} :: !Watched(v, q, 0, n + 1, x) ==> Same(v, v', x))
  {
    hide TableInv, Armed, Same, Watched, Deletable;
    DeleteFromSame(v, q, 0);
    DeleteFromDisarms(v, q, 0);
    var v1 := DeleteFrom(v, q, 0).0;
    n := DeleteFrom(v, q, 0).1;
    if n < |q| {
      var v' := AddUpTo(v1, q, 0, n, refuse);
      AddUpToArms(v1, q, 0, n, refuse);
      forall x: nat | !Watched(v, q, 0, n + 1, x)
        ensures Same(v, v', x)
      {
        NotWatched(v, v1, q, n, x);
        SameTwice(v, v1, v', x);
      }
    }
  }

  lemma NotWatched<I, T>(v: Events<I, T>, v1: Events<I, T>, q: seq<I>, n: nat, x: nat)
    requires v1.items == v.items && !Watched(v, q, 0, n + 1, x)
    ensures !Watched(v1, q, 0, n, x)
  {
  }
}
