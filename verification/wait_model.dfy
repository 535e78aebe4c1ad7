/** The scheduler and the event table together, for the calls that wait for a descriptor: which item is in
    the fd set of which coroutine, from the call to its return. */
module WaitModel {
  import opened Queues
  import opened SchedModel
  import opened SchedInvariant
  import opened SchedRuns
  import opened WaitSched
  import opened PollModel
  import opened EventModel
  import opened EventDispatch

  /** The run of the scheduler, the event table, and the item in m_fdset_ of each coroutine that has one:
      st_wait and WaitFdReady put one there at a time. */
  datatype Joint<I(==), T(==)> = Joint(y: Sys<T>, v: Events<I, T>, fdset: map<T, I>)

  datatype Act<I, T> =
    | Wait(fd: nat, read: bool, ms: int, now: int, ready: bool, refused: bool)    // st_wait
    | Io(fd: nat, read: bool, ms: int, now: int, refused: bool)                   // WaitFdReady
    | Return                                     // the active coroutine comes back from either of them
    | Turn(fs: seq<Fired>, now: int)             // a turn of the daemon, with what the poll reports
    | Other(e: Event<T>)
    | Register(fd: nat, i: I)                    // an item made for an empty slot
    | Release(i: I)                              // an item leaves its slot and goes back to its pool
    | Open(fd: nat)
    | Close(fd: nat)                             // clears the cached mask and closes the descriptor

  predicate Linked<I(==), T(==)>(j: Joint<I, T>, i: I)
  {
    i in j.fdset.Values
  }

  /** The item is in the slot of its descriptor. */
  predicate Holds<I(==), T>(v: Events<I, T>, i: I)
  {
    i in v.items && ValidFd(v, v.items[i].fd) && v.items[i].fd in v.table && v.table[v.items[i].fd] == i
  }

  // ---------- steps ----------

  /** The interest of st_wait and WaitFdReady: one direction. */
  function Direction(m: Mask, read: bool): Mask
  {
    m.(read := read, write := !read)
  }

  /** Schedule with item i up to the switch. An item that is linked in another coroutine's fd set stays
      there, whatever CPP_TAILQ_INSERT_TAIL is told: the caller's own set then has nothing to add. */
  function Begin<I(==), T(==)>(j: Joint<I, T>, i: I, read: bool, refused: bool): (Events<I, T>, map<T, I>, bool)
    requires TableInv(j.v) && i in j.v.items
  {
    var a := j.y.s.active;
    WatchingKeeps(j.v, i, Direction(j.v.items[i].events, read), a);
    var v1 := Watching(j.v, i, Direction(j.v.items[i].events, read), a);
    if Linked(j, i) then (v1, j.fdset, true)
    else
      var (v2, ok) := AddItem(v1, i, refused);
      (v2, if ok then j.fdset[a := i] else j.fdset, ok)
  }

  /** Schedule from the switch on: whether an event is recorded, and the table without the interest. */
  function End<I(==), T(==)>(j: Joint<I, T>): (Events<I, T>, map<T, I>, bool)
    requires j.y.s.active in j.fdset ==> j.fdset[j.y.s.active] in j.v.items
  {
    var a := j.y.s.active;
    if a !in j.fdset then (j.v, j.fdset, false)
    else (DeleteItem(j.v, j.fdset[a]).0, j.fdset - {a}, j.v.items[j.fdset[a]].revents != NONE)
  }

  /** The table after a batch of events. */
  function Settle<I(==), T>(v: Events<I, T>, fs: seq<Fired>): (r: Events<I, T>)
    requires TableInv(v)
    ensures TableInv(r)
    decreases |fs|
  {
    if fs == [] then v else (EventStepKeeps(v, fs[0]); Settle(EventStep(v, fs[0]), fs[1..]))
  }

  /** A new item, without interest or owner, is added. */
  function Registered<I(==), T>(v: Events<I, T>, fd: nat, i: I): Events<I, T>
    requires TableInv(v) && i !in v.items
  {
    var v1 := v.(items := v.items[i := Item(fd, NONE, NONE, None)]);
    assert TableInv(v1);
    AddItem(v1, i, false).0
  }

  /** hook_release_item: the item leaves its slot, its fd set and the items. */
  function Released<I(==), T>(v: Events<I, T>, i: I): Events<I, T>
    requires i in v.items
  {
    var v1 := if Holds(v, i) then ClearItem(v, i) else v;
    v1.(items := v1.items - {i})
  }

  /** The step of the run that st_wait or WaitFdReady is. */
  function WaitEvent<I(==), T(==)>(j: Joint<I, T>, a: Act<I, T>, ok: bool): Event<T>
    requires a.Wait? || a.Io?
  {
    if a.Wait? then Event.Wait(a.ms, a.now, ok, a.ready) else Event.Io(a.ms, a.now, ok)
  }

  /** The kernel reports descriptors that are registered, each with some event. */
  ghost predicate FiredOk<I, T>(v: Events<I, T>, fs: seq<Fired>)
  {
    forall k :: 0 <= k < |fs| ==> fs[k].fd >= 0 && fs[k].fd in v.io.reg && fs[k].mask != NONE
  }

  ghost predicate CanAct<I, T>(j: Joint<I, T>, a: Act<I, T>)
  {
    match a
    case Wait(fd, _, ms, now, ready, _) => fd in j.v.table && Enabled(j.y, Event.Wait(ms, now, false, ready))
    case Io(fd, _, ms, now, _) => fd in j.v.table && Enabled(j.y, Event.Io(ms, now, false))
    case Return => Enabled(j.y, Resume(false)) && Waits(j.y, j.y.s.active)
    case Turn(fs, now) => Enabled(j.y, Event.Turn([], now)) && FiredOk(j.v, fs)
    case Other(e) => Enabled(j.y, e) && Unrelated(j.y, e) && !e.Turn?
    case Register(fd, i) => fd < |j.v.io.cache| && fd !in j.v.table && i !in j.v.items
    case Release(i) => i in j.v.items
    case Open(_) => true
    case Close(_) => true
  }

  // ---------- the invariant ----------

  /** Item i is t's: it belongs to t, and while it holds its slot the kernel watches for its event. */
  ghost predicate WaitsFor<I, T>(v: Events<I, T>, t: T, i: I)
  {
    && i in v.items && v.items[i].owner == Some(t) && Interest(v.items[i].events) != NONE
    && (Holds(v, i) ==> Armed(v, i))
  }

  /** Every linked item is its coroutine's and in one set only, and the kernel watches linked items only. */
  ghost predicate TableOk<I, T>(v: Events<I, T>, fdset: map<T, I>)
  {
    && TableInv(v)
    && (forall t, u :: t in fdset && u in fdset && fdset[t] == fdset[u] ==> t == u)
    && (forall t {:trigger WaitsFor(v, t, fdset[t])} :: t in fdset ==> WaitsFor(v, t, fdset[t]))
    && (forall fd :: fd in v.io.reg ==> fd in v.table && v.table[fd] in fdset.Values)
  }

  /** Exactly the coroutines that wait have an item, and that of a coroutine on the IO queue is in its slot. */
  ghost predicate JointInv<I, T>(j: Joint<I, T>)
  {
    && SysInv(j.y) && TableOk(j.v, j.fdset) && j.fdset.Keys == Waiters(j.y)
    && (forall t :: t in j.y.s.io ==> t in j.fdset && Holds(j.v, j.fdset[t]))
  }

  /** Nobody else has the item: the condition under which the code does what it promises. It can be checked
      before the call. */
  ghost predicate Tidy<I, T>(j: Joint<I, T>, a: Act<I, T>)
    requires JointInv(j) && CanAct(j, a)
  {
    match a
    case Wait(fd, _, _, _, _, _) => j.y.s.th[j.y.s.active].notified || !Linked(j, j.v.table[fd])
    case Io(fd, _, _, _, _) => !Linked(j, j.v.table[fd])
    case Release(i) => !Linked(j, i)
    case Close(fd) => fd !in j.v.io.reg
    case _ => true
  }

  // ---------- the table ----------

  lemma NoInterest<I, T>(v: Events<I, T>, fd: nat)
    requires TableInv(v) && fd < |v.io.cache| && fd !in v.io.reg
    ensures v.io.cache[fd] == NONE && PollModel.Registered(v.io, fd) == NONE
  {
    assert SyncedAt(v.io, fd, true);
  }

  /** An item in its slot: adding it arms it or changes nothing. */
  lemma AddHolding<I, T>(v: Events<I, T>, i: I, refused: bool)
    requires TableInv(v) && Holds(v, i)
    ensures var (v', ok) := AddItem(v, i, refused);
            if ok then
              && v' == v.(io := v'.io) && TableInv(v') && Armed(v', i)
              && Becomes(v.io, v'.io, v.items[i].fd, v.items[i].events)
            else v' == v
  {
    EpollRefines(v.io, v.items[i].fd, v.items[i].events, refused);
    AddItemExact(v, i, refused);
    assert v.table[v.items[i].fd := i] == v.table;
  }

  /** Deleting an armed item, or one whose descriptor has no interest, leaves no interest there. */
  lemma DeleteHolding<I, T>(v: Events<I, T>, i: I)
    requires TableInv(v) && Holds(v, i) && (Armed(v, i) || v.items[i].fd !in v.io.reg)
    ensures var v' := DeleteItem(v, i).0; var fd := v.items[i].fd;
            && v' == v.(io := v'.io) && TableInv(v') && fd !in v'.io.reg && Becomes(v.io, v'.io, fd, NONE)
  {
    var fd := v.items[i].fd;
    if !Armed(v, i) {
      NoInterest(v, fd);
    }
    EpollRefines(v.io, fd, v.items[i].events, false);
    var v' := DeleteItem(v, i).0;
    assert SyncedAt(v'.io, fd, true);
  }

  // ---------- what each part of a step keeps of the table ----------

  /** Schedule of an item that is in its slot and in no fd set. */
  lemma BeginKeeps<I, T>(j: Joint<I, T>, i: I, read: bool, refused: bool)
    requires TableOk(j.v, j.fdset) && j.y.s.active !in j.fdset && Holds(j.v, i) && !Linked(j, i)
    ensures var (v', fdset', ok) := Begin(j, i, read, refused);
            && TableOk(v', fdset') && fdset' == (if ok then j.fdset[j.y.s.active := i] else j.fdset)
            && v'.items.Keys == j.v.items.Keys && Holds(v', i)
            && (forall x :: x in j.v.items && x != i ==> v'.items[x] == j.v.items[x])
            && v'.items[i].fd == j.v.items[i].fd && v'.items[i].revents == j.v.items[i].revents
            && v'.table == j.v.table && |v'.io.cache| == |j.v.io.cache|
  {
    var a := j.y.s.active;
    var m := Direction(j.v.items[i].events, read);
    var v1 := Watching(j.v, i, m, a);
    WatchingKeeps(j.v, i, m, a);
    AddHolding(v1, i, refused);
    var (v', fdset', ok) := Begin(j, i, read, refused);
    hide TableInv, AddItem;
    forall t | t in fdset'
      ensures WaitsFor(v', t, fdset'[t])
    {
      if t in j.fdset {
        assert WaitsFor(j.v, t, j.fdset[t]);
      }
    }
    forall fd | fd in v'.io.reg
      ensures fd in v'.table && v'.table[fd] in fdset'.Values
    {
      if fd in j.v.io.reg {
        Kept(j.fdset, a, i, j.v.table[fd]);
      } else {
        assert a in fdset';
      }
    }
  }

  /** The item then has one direction of interest, the one that was asked for. */
  lemma BeginDirection<I, T>(j: Joint<I, T>, i: I, read: bool, refused: bool)
    requires TableInv(j.v) && Holds(j.v, i) && !Linked(j, i)
    ensures var v' := Begin(j, i, read, refused).0;
            i in v'.items && (v'.items[i].events.read <==> read) && (v'.items[i].events.write <==> !read)
  {
    var v1 := Watching(j.v, i, Direction(j.v.items[i].events, read), j.y.s.active);
    WatchingKeeps(j.v, i, Direction(j.v.items[i].events, read), j.y.s.active);
    AddHolding(v1, i, refused);
  }

  /** A value of a map stays when a new key is added. */
  lemma Kept<K, V>(m: map<K, V>, k: K, v: V, w: V)
    requires k !in m && w in m.Values
    ensures w in m[k := v].Values
  {
    var x :| x in m && m[x] == w;
    assert x in m[k := v] && m[k := v][x] == w;
  }

  lemma ValueGone<K, V>(m: map<K, V>, k: K, w: V)
    requires k in m && w in m.Values && w != m[k]
    ensures w in (m - {k}).Values
  {
    var x :| x in m && m[x] == w;
    assert x in m - {k} && (m - {k})[x] == w;
  }

  /** The end of a wait. */
  lemma EndKeeps<I, T>(j: Joint<I, T>)
    requires TableOk(j.v, j.fdset) && j.y.s.active in j.fdset
    ensures WaitsFor(j.v, j.y.s.active, j.fdset[j.y.s.active])
    ensures var (v', fdset', _) := End(j);
            && TableOk(v', fdset') && fdset' == j.fdset - {j.y.s.active}
            && v'.table == j.v.table && v'.items == j.v.items && |v'.io.cache| == |j.v.io.cache|
  {
    var a := j.y.s.active;
    var i := j.fdset[a];
    assert WaitsFor(j.v, a, i);
    var (v', fdset', _) := End(j);
    DeleteItemExact(j.v, i);
    if Holds(j.v, i) {
      DeleteHolding(j.v, i);
    } else {
      DeleteElsewhere(j.v, j.fdset, i);
    }
    hide TableInv, DeleteItem, Armed;
    forall t | t in fdset'
      ensures WaitsFor(v', t, fdset'[t])
    {
      assert WaitsFor(j.v, t, j.fdset[t]);
      StillArmed(j.v, v', i, j.fdset[t]);
    }
    forall fd | fd in v'.io.reg
      ensures fd in v'.table && v'.table[fd] in fdset'.Values
    {
      assert fd in j.v.io.reg;
      assert j.v.table[fd] != i;
      ValueGone(j.fdset, a, j.v.table[fd]);
    }
  }

  /** An item that is not in its slot: deleting it changes nothing. */
  lemma DeleteElsewhere<I, T>(v: Events<I, T>, fdset: map<T, I>, i: I)
    requires TableOk(v, fdset) && i in v.items && !Holds(v, i)
    ensures DeleteItem(v, i).0 == v
  {
    var fd := v.items[i].fd;
    if ValidFd(v, fd) && fd !in v.table {
      NoInterest(v, fd);
      EpollRefines(v.io, fd, v.items[i].events, false);
    }
  }

  /** What happens to one descriptor leaves the items of the others armed. */
  lemma StillArmed<I, T>(v: Events<I, T>, v': Events<I, T>, i: I, x: I)
    requires TableInv(v) && i in v.items && x in v.items && x != i && OnlyAt(v, v', v.items[i].fd)
    requires v'.table == v.table && (!Holds(v, i) ==> v' == v)
    ensures Holds(v', x) <==> Holds(v, x)
    ensures Holds(v, x) && Armed(v, x) ==> Armed(v', x)
  {
    if Holds(v, x) && Armed(v, x) {
      assert Same(v, v', v.items[x].fd);
    }
  }

  /** One event: an item leaves its slot exactly for an error of its descriptor. */
  lemma EventKeeps<I, T>(v: Events<I, T>, fdset: map<T, I>, f: Fired)
    requires TableOk(v, fdset)
    ensures var v' := EventStep(v, f);
            && TableOk(v', fdset) && v'.items.Keys == v.items.Keys
            && (forall x :: x in v.items ==>
                 && v'.items[x] == v.items[x].(revents := if Holds(v, x) && f.fd == v.items[x].fd then f.mask
                                                         else v.items[x].revents)
                 && (Holds(v', x) <==> Holds(v, x) && !(f.fd == v.items[x].fd && f.mask.err)))
  {
    EventStepKeeps(v, f);
    var v' := EventStep(v, f);
    EventFrame(v, fdset, f);
    hide EventStep, TableInv, Armed;
    forall t | t in fdset
      ensures WaitsFor(v', t, fdset[t])
    {
      assert WaitsFor(v, t, fdset[t]);
    }
  }

  lemma EventFrame<I, T>(v: Events<I, T>, fdset: map<T, I>, f: Fired)
    requires TableOk(v, fdset)
    ensures var v' := EventStep(v, f);
            && v'.items.Keys == v.items.Keys
            && (forall fd :: fd in v'.io.reg ==> fd in v.io.reg && fd in v'.table && v'.table[fd] == v.table[fd])
            && (forall x :: x in v.items ==>
                 && v'.items[x] == v.items[x].(revents := if Holds(v, x) && f.fd == v.items[x].fd then f.mask
                                                         else v.items[x].revents)
                 && (Holds(v', x) <==> Holds(v, x) && !(f.fd == v.items[x].fd && f.mask.err))
                 && (Holds(v', x) && Armed(v, x) ==> Armed(v', x)))
  {
    if ValidFd(v, f.fd) {
      if f.fd !in v.table {
        NoInterest(v, f.fd);
        EpollRefines(v.io, f.fd, f.mask, false);
      } else if f.mask.err {
        var i := v.table[f.fd];
        var v1 := v.(items := v.items[i := v.items[i].(revents := f.mask)]);
        HeldIsArmed(v, fdset, i);
        DeleteHolding(v1, i);
      }
    }
  }

  /** An item in its slot is armed, or its descriptor is not watched. */
  lemma HeldIsArmed<I, T>(v: Events<I, T>, fdset: map<T, I>, i: I)
    requires TableOk(v, fdset) && Holds(v, i)
    ensures Armed(v, i) || v.items[i].fd !in v.io.reg
  {
    if v.items[i].fd in v.io.reg {
      var t :| t in fdset && fdset[t] == i;
      assert WaitsFor(v, t, fdset[t]);
    }
  }

  /** An error of the descriptor is among the events. */
  ghost predicate Failed(fs: seq<Fired>, fd: int)
  {
    exists k :: 0 <= k < |fs| && fs[k].fd == fd && fs[k].mask.err
  }

  /** Some event of the descriptor is among them. */
  ghost predicate Fires(fs: seq<Fired>, fd: int)
  {
    exists k :: 0 <= k < |fs| && fs[k].fd == fd
  }

  lemma FailedHead(fs: seq<Fired>, fd: int)
    requires fs != []
    ensures Failed(fs, fd) <==> (fs[0].fd == fd && fs[0].mask.err) || Failed(fs[1..], fd)
    ensures Fires(fs, fd) <==> fs[0].fd == fd || Fires(fs[1..], fd)
  {
    assert forall k :: 0 <= k < |fs| - 1 ==> fs[1..][k] == fs[k + 1];
    assert forall k :: 1 <= k < |fs| ==> fs[k] == fs[1..][k - 1];
  }

  /** A batch of events: an item leaves its slot exactly for an error, and something is recorded in it exactly
      when an event of its descriptor comes while it is there. */
  lemma {:induction false} SettleKeeps<I, T>(v: Events<I, T>, fdset: map<T, I>, fs: seq<Fired>)
    requires TableOk(v, fdset) && forall k :: 0 <= k < |fs| ==> fs[k].mask != NONE
    ensures var v' := Settle(v, fs);
            && TableOk(v', fdset) && v'.items.Keys == v.items.Keys
            && (forall x :: x in v.items ==>
                 && v'.items[x] == v.items[x].(revents := v'.items[x].revents)
                 && (Holds(v', x) <==> Holds(v, x) && !Failed(fs, v.items[x].fd))
                 && (v'.items[x].revents != NONE <==>
                      v.items[x].revents != NONE || (Holds(v, x) && Fires(fs, v.items[x].fd))))
    decreases |fs|
  {
    hide TableOk, EventStep, Holds, Failed, Fires;
    if fs != [] {
      HasTable(v, fdset);
      EventKeeps(v, fdset, fs[0]);
      var v1 := EventStep(v, fs[0]);
      HasTable(v1, fdset);
      assert forall k :: 0 <= k < |fs| - 1 ==> fs[1..][k] == fs[k + 1];
      SettleKeeps(v1, fdset, fs[1..]);
      forall x | x in v.items
        ensures var fd := v.items[x].fd;
                && (Failed(fs, fd) <==> (fs[0].fd == fd && fs[0].mask.err) || Failed(fs[1..], fd))
                && (Fires(fs, fd) <==> fs[0].fd == fd || Fires(fs[1..], fd))
      {
        FailedHead(fs, v.items[x].fd);
      }
    } else {
      NoneFired(fs);
    }
  }

  lemma HasTable<I, T>(v: Events<I, T>, fdset: map<T, I>)
    requires TableOk(v, fdset)
    ensures TableInv(v)
  {
  }

  lemma NoneFired(fs: seq<Fired>)
    requires fs == []
    ensures forall fd :: !Failed(fs, fd) && !Fires(fs, fd)
  {
  }

  /** A new item in an empty slot. */
  lemma RegisterKeeps<I, T>(v: Events<I, T>, fdset: map<T, I>, fd: nat, i: I)
    requires TableOk(v, fdset) && fd < |v.io.cache| && fd !in v.table && i !in v.items
    ensures var v' := Registered(v, fd, i);
            && v' == v.(items := v.items[i := Item(fd, NONE, NONE, None)], table := v.table[fd := i])
            && TableOk(v', fdset) && forall x :: x in v.items ==> (Holds(v', x) <==> Holds(v, x))
  {
    NoInterest(v, fd);
    var v1 := v.(items := v.items[i := Item(fd, NONE, NONE, None)]);
    assert TableInv(v1);
    AddItemExact(v1, i, false);
    var v' := Registered(v, fd, i);
    forall t | t in fdset
      ensures WaitsFor(v', t, fdset[t])
    {
      assert WaitsFor(v, t, fdset[t]);
    }
  }

  /** An item that nobody waits for is released. */
  lemma ReleaseKeeps<I, T>(v: Events<I, T>, fdset: map<T, I>, i: I)
    requires TableOk(v, fdset) && i in v.items && i !in fdset.Values
    ensures var v' := Released(v, i);
            && TableOk(v', fdset) && v'.items == v.items - {i}
            && forall x :: x in v'.items ==> (Holds(v', x) <==> Holds(v, x))
  {
    var v' := Released(v, i);
    if Holds(v, i) {
      HeldIsArmed(v, fdset, i);
      assert v.items[i].fd !in v.io.reg;
      DeleteHolding(v, i);
      NoInterest(v, v.items[i].fd);
      assert DeleteItem(v, i).0.io.reg == v.io.reg;
    }
    hide DeleteItem;
    forall t | t in fdset
      ensures WaitsFor(v', t, fdset[t])
    {
      assert WaitsFor(v, t, fdset[t]);
    }
  }

  /** A descriptor nobody watches is opened or closed. */
  lemma IoKeeps<I, T>(v: Events<I, T>, fdset: map<T, I>, fd: nat)
    requires TableOk(v, fdset)
    ensures TableOk(v.(io := v.io.(open := v.io.open + {fd})), fdset)
    ensures fd !in v.io.reg ==> TableOk(v.(io := PollModel.Close(v.io, fd)), fdset)
  {
    var o := v.(io := v.io.(open := v.io.open + {fd}));
    forall x: nat | x < |o.io.cache|
      ensures SyncedAt(o.io, x, true)
    {
      assert SyncedAt(v.io, x, true);
    }
    SameMasks(v, o, fdset);
    if fd !in v.io.reg {
      CloseKeeps(v.io, fd, true);
      if fd < |v.io.cache| {
        NoInterest(v, fd);
        assert v.io.cache[fd := NONE] == v.io.cache;
      }
      assert v.io.reg - {fd} == v.io.reg;
      SameMasks(v, v.(io := PollModel.Close(v.io, fd)), fdset);
    }
  }

  lemma SameMasks<I, T>(v: Events<I, T>, v': Events<I, T>, fdset: map<T, I>)
    requires TableOk(v, fdset) && v' == v.(io := v'.io) && v'.io.cache == v.io.cache && v'.io.reg == v.io.reg
    requires Synced(v'.io, true)
    ensures TableOk(v', fdset) && forall x :: x in v.items ==> (Holds(v', x) <==> Holds(v, x))
  {
    forall t | t in fdset
      ensures WaitsFor(v', t, fdset[t])
    {
      assert WaitsFor(v, t, fdset[t]);
    }
  }

  // ---------- the joint step ----------

  /** Whoever is reported to is a waiter, so no event is handed to a coroutine that is gone. */
  lemma OwnersWait<I, T>(j: Joint<I, T>, fs: seq<Fired>)
    requires JointInv(j) && FiredOk(j.v, fs)
    ensures forall t :: t in AllReported(j.v, fs) ==> t in j.fdset && t in j.y.s.th
  {
    forall t | t in AllReported(j.v, fs)
      ensures t in j.fdset
    {
      ReportedTo(j.v, fs, t);
      var k :| 0 <= k < |fs| && OwnerOf(j.v, fs[k]) == Some(t);
      var u :| u in j.fdset && j.fdset[u] == j.v.table[fs[k].fd];
      assert WaitsFor(j.v, u, j.fdset[u]);
    }
  }

  ghost function Do<I, T>(j: Joint<I, T>, a: Act<I, T>): Joint<I, T>
    requires JointInv(j) && CanAct(j, a)
  {
    match a
    case Wait(fd, read, _, _, _, refused) =>
      if j.y.s.th[j.y.s.active].notified then j.(y := Step(j.y, WaitEvent(j, a, true)).0)
      else DoBegin(j, a, Begin(j, j.v.table[fd], read, refused))
    case Io(fd, read, _, _, refused) => DoBegin(j, a, Begin(j, j.v.table[fd], read, refused))
    case Return =>
      ReturnReady(j);
      var (v', fdset', got) := End(j);
      Joint(Step(j.y, Resume(got)).0, v', fdset')
    case Turn(fs, now) =>
      OwnersWait(j, fs);
      Joint(Step(j.y, Event.Turn(AllReported(j.v, fs), now)).0, Settle(j.v, fs), j.fdset)
    case Other(e) => j.(y := Step(j.y, e).0)
    case Register(fd, i) => j.(v := Registered(j.v, fd, i))
    case Release(i) => j.(v := Released(j.v, i), fdset := map t | t in j.fdset && j.fdset[t] != i :: j.fdset[t])
    case Open(fd) => j.(v := j.v.(io := j.v.io.(open := j.v.io.open + {fd})))
    case Close(fd) => j.(v := j.v.(io := PollModel.Close(j.v.io, fd)))
  }

  ghost function DoBegin<I, T>(j: Joint<I, T>, a: Act<I, T>, r: (Events<I, T>, map<T, I>, bool)): Joint<I, T>
    requires JointInv(j) && CanAct(j, a) && (a.Wait? || a.Io?)
  {
    Joint(Step(j.y, WaitEvent(j, a, r.2)).0, r.0, r.1)
  }

  /** Begin and End are what StEventSchedule does with a fd set of this one item. */
  lemma BeginIsAdd<I, T>(j: Joint<I, T>, i: I, read: bool, refuse: set<I>)
    requires TableInv(j.v) && i in j.v.items && !Linked(j, i)
    ensures var v1 := Watching(j.v, i, Direction(j.v.items[i].events, read), j.y.s.active);
            && TableInv(v1) && Exist(v1, [i])
            && AddQueue(v1, [i], refuse) == (Begin(j, i, read, i in refuse).0, Begin(j, i, read, i in refuse).2)
  {
    var v1 := Watching(j.v, i, Direction(j.v.items[i].events, read), j.y.s.active);
    WatchingKeeps(j.v, i, Direction(j.v.items[i].events, read), j.y.s.active);
    AddItemExact(v1, i, i in refuse);
    assert AddFrom(AddItem(v1, i, i in refuse).0, [i], 1, refuse).1 == 1;
  }

  /** The fd set of the active coroutine. */
  function OwnSet<I(==), T(==)>(j: Joint<I, T>): seq<I>
  {
    if j.y.s.active in j.fdset then [j.fdset[j.y.s.active]] else []
  }

  /** From the switch on: the interest of the fd set is deleted and the set emptied, and the answer says whether an
      event is recorded in an item of it; so a coroutine that parked with an empty set is told of no event. */
  lemma EndIsDelete<I, T>(j: Joint<I, T>, refuse: set<I>)
    requires TableInv(j.v) && (j.y.s.active in j.fdset ==> j.fdset[j.y.s.active] in j.v.items)
    ensures Exist(j.v, OwnSet(j))
    ensures var (v', fdset', ready) := End(j);
            && DeleteQueue(j.v, OwnSet(j), refuse).0 == v' && fdset' == j.fdset - {j.y.s.active}
            && (ready <==> exists k :: 0 <= k < |OwnSet(j)| && j.v.items[OwnSet(j)[k]].revents != NONE)
  {
    if j.y.s.active in j.fdset {
      var i := j.fdset[j.y.s.active];
      assert i == OwnSet(j)[0];
      DeleteItemExact(j.v, i);
      assert DeleteFrom(DeleteItem(j.v, i).0, [i], 1).1 == 1;
    }
  }

  /** Item i is in the slot of fd and t's, and the kernel watches fd for reading, if that is asked for, else for
      writing, and for nothing else. */
  ghost predicate Watches<I, T>(v: Events<I, T>, fd: nat, i: I, t: T, read: bool)
  {
    && i in v.items && v.items[i].fd == fd && v.items[i].owner == Some(t)
    && (v.items[i].events.read <==> read) && (v.items[i].events.write <==> !read)
    && fd in v.table && v.table[fd] == i && PollModel.Registered(v.io, fd) == Mask(read, !read, false)
  }

  /** An item in its slot that gets a direction and is added is watched for that one. */
  lemma AddedWatches<I, T>(v: Events<I, T>, i: I, t: T, read: bool, refuse: set<I>)
    requires TableInv(v) && Holds(v, i)
    ensures var v1 := Watching(v, i, Direction(v.items[i].events, read), t);
            && TableInv(v1) && Exist(v1, [i])
            && var (v', ok) := AddQueue(v1, [i], refuse);
               ok ==> Watches(v', v.items[i].fd, i, t, read)
  {
    var v1 := Watching(v, i, Direction(v.items[i].events, read), t);
    WatchingKeeps(v, i, Direction(v.items[i].events, read), t);
    AddItemExact(v1, i, i in refuse);
    AddHolding(v1, i, i in refuse);
    assert AddFrom(AddItem(v1, i, i in refuse).0, [i], 1, refuse).1 == 1;
  }

  lemma ReturnReady<I, T>(j: Joint<I, T>)
    requires JointInv(j) && CanAct(j, Return)
    ensures j.y.s.active in j.fdset && j.fdset[j.y.s.active] in j.v.items
    ensures Enabled(j.y, Resume(true)) && Enabled(j.y, Resume(false))
  {
    EndedIs(j.y, false);
    assert WaitsFor(j.v, j.y.s.active, j.fdset[j.y.s.active]);
  }

  // ---------- what a step keeps ----------

  /** A wait that returns at once: with a notification, or because the item could not be added. */
  lemma EntryKeeps<I, T>(j: Joint<I, T>, e: Event<T>, v': Events<I, T>)
    requires JointInv(j) && BeginsWait(e) && Enabled(j.y, e) && j.y.s.active in j.y.s.th && !Parks(j.y, e)
    requires TableOk(v', j.fdset) && forall t :: t in j.fdset ==> (Holds(v', j.fdset[t]) <==> Holds(j.v, j.fdset[t]))
    ensures JointInv(Joint(Step(j.y, e).0, v', j.fdset))
  {
    hide SysInv, TableOk, Waiters, Enabled, Step, Holds;
    EntryIsCalm(j.y, e);
    SchedRuns.StepKeeps(j.y, e);
  }

  /** A wait that parks with its item. */
  lemma ParkKeeps<I, T>(j: Joint<I, T>, e: Event<T>, v': Events<I, T>, i: I)
    requires JointInv(j) && BeginsWait(e) && Enabled(j.y, e) && j.y.s.active in j.y.s.th && Parks(j.y, e)
    requires TableOk(v', j.fdset[j.y.s.active := i]) && Holds(v', i)
    requires forall t :: t in j.fdset ==> (Holds(v', j.fdset[t]) <==> Holds(j.v, j.fdset[t]))
    ensures JointInv(Joint(Step(j.y, e).0, v', j.fdset[j.y.s.active := i]))
  {
    hide SysInv, TableOk, Waiters, Enabled, Step, Holds, Waits;
    ParkedIs(j.y, e);
    SchedRuns.StepKeeps(j.y, e);
  }

  /** A wait that parks without one is forgotten by the table. */
  lemma ParkBreaks<I, T>(j: Joint<I, T>, e: Event<T>, v': Events<I, T>)
    requires JointInv(j) && BeginsWait(e) && Enabled(j.y, e) && j.y.s.active in j.y.s.th && Parks(j.y, e)
    ensures !JointInv(Joint(Step(j.y, e).0, v', j.fdset))
  {
    hide SysInv, TableOk, Enabled, Step, Holds;
    ParkedIs(j.y, e);
    assert j.y.s.active !in Waiters(j.y);
  }

  lemma WaitReady<I, T>(j: Joint<I, T>, a: Act<I, T>, ok: bool)
    requires JointInv(j) && CanAct(j, a) && (a.Wait? || a.Io?)
    ensures Enabled(j.y, WaitEvent(j, a, ok)) && BeginsWait(WaitEvent(j, a, ok))
    ensures j.y.s.active in j.y.s.th && j.y.s.active !in j.fdset
    ensures Holds(j.v, j.v.table[a.fd]) && j.v.items[j.v.table[a.fd]].fd == a.fd
  {
    RunningWaitsNot(j.y);
  }

  lemma BeginStep<I, T>(j: Joint<I, T>, a: Act<I, T>)
    requires JointInv(j) && CanAct(j, a) && (a.Io? || (a.Wait? && !j.y.s.th[j.y.s.active].notified))
    ensures JointInv(Do(j, a)) <==> !Linked(j, j.v.table[a.fd])
  {
    var i := j.v.table[a.fd];
    WaitReady(j, a, true);
    WaitReady(j, a, false);
    var (v', fdset', ok) := Begin(j, i, a.read, a.refused);
    if Linked(j, i) {
      ParkBreaks(j, WaitEvent(j, a, true), v');
    } else {
      BeginKeeps(j, i, a.read, a.refused);
      forall t | t in j.fdset
        ensures Holds(v', j.fdset[t]) <==> Holds(j.v, j.fdset[t])
      {
        assert j.fdset[t] in j.fdset.Values;
      }
      if ok {
        ParkKeeps(j, WaitEvent(j, a, true), v', i);
      } else {
        EntryKeeps(j, WaitEvent(j, a, false), v');
      }
    }
  }

  lemma ReturnKeeps<I, T>(j: Joint<I, T>)
    requires JointInv(j) && CanAct(j, Return)
    ensures JointInv(Do(j, Return))
  {
    hide SysInv, TableOk, Waiters, Enabled, Step, Waits;
    ReturnReady(j);
    EndKeeps(j);
    var got := End(j).2;
    EndedIs(j.y, got);
    SchedRuns.StepKeeps(j.y, Resume(got));
  }

  lemma TheItem<I, T>(j: Joint<I, T>, t: T)
    requires JointInv(j) && t in j.fdset
    ensures j.fdset[t] in j.v.items && WaitsFor(j.v, t, j.fdset[t])
  {
    assert WaitsFor(j.v, t, j.fdset[t]);
  }

  lemma TurnCanStart<I, T>(j: Joint<I, T>, fs: seq<Fired>, now: int)
    requires JointInv(j) && CanAct(j, Act.Turn(fs, now))
    ensures Enabled(j.y, Event.Turn(AllReported(j.v, fs), now))
    ensures forall k :: 0 <= k < |fs| ==> fs[k].mask != NONE
  {
    OwnersWait(j, fs);
  }

  /** A coroutine still on the IO queue after a turn saw no error of its descriptor. */
  lemma TurnKeeps<I, T>(j: Joint<I, T>, fs: seq<Fired>, now: int)
    requires JointInv(j) && CanAct(j, Act.Turn(fs, now))
    ensures JointInv(Do(j, Act.Turn(fs, now)))
  {
    hide SysInv, TableOk, Waiters, Enabled, DoTurn, Settle, AllReported, Holds, Failed, WakeOwners;
    HasTable(j.v, j.fdset);
    TurnCanStart(j, fs, now);
    SettleKeeps(j.v, j.fdset, fs);
    var owners := AllReported(j.v, fs);
    var e := Event.Turn(owners, now);
    TurnIsCalm(j.y, owners, now);
    SchedRuns.StepKeeps(j.y, e);
    var y' := Step(j.y, e).0;
    forall t | t in y'.s.io
      ensures t in j.fdset && Holds(Settle(j.v, fs), j.fdset[t])
    {
      TheItem(j, t);
      if Failed(fs, j.v.items[j.fdset[t]].fd) {
        ErrorIsReported(j, fs, t);
        TurnWakes(j.y, owners, now, t);
      }
    }
  }

  /** The first event of a waiter's descriptor is reported to it, if it is an error or handled. */
  lemma FirstIsReported<I, T>(j: Joint<I, T>, fs: seq<Fired>, t: T, k: nat)
    requires JointInv(j) && t in j.fdset && Holds(j.v, j.fdset[t]) && k < |fs|
    requires fs[k].fd == j.v.items[j.fdset[t]].fd && Handles(fs[k]) && StillThere(fs, k)
    ensures t in AllReported(j.v, fs)
  {
    assert WaitsFor(j.v, t, j.fdset[t]);
    ReportedTo(j.v, fs, t);
    assert OwnerOf(j.v, fs[k]) == Some(t);
  }

  lemma ErrorIsReported<I, T>(j: Joint<I, T>, fs: seq<Fired>, t: T)
    requires JointInv(j) && t in j.fdset && Holds(j.v, j.fdset[t]) && Failed(fs, j.v.items[j.fdset[t]].fd)
    ensures t in AllReported(j.v, fs)
  {
    var k := FirstError(fs, j.v.items[j.fdset[t]].fd);
    FirstIsReported(j, fs, t, k);
  }

  lemma {:induction false} FirstError(fs: seq<Fired>, fd: int) returns (k: nat)
    requires Failed(fs, fd)
    ensures k < |fs| && fs[k].fd == fd && fs[k].mask.err && StillThere(fs, k)
    decreases |fs|
  {
    if fs[0].fd == fd && fs[0].mask.err {
      k := 0;
    } else {
      FailedHead(fs, fd);
      var n := FirstError(fs[1..], fd);
      k := n + 1;
      LaterStillThere(fs, n);
    }
  }

  lemma OtherKeeps<I, T>(j: Joint<I, T>, e: Event<T>)
    requires JointInv(j) && CanAct(j, Other(e))
    ensures JointInv(Do(j, Other(e)))
  {
    hide SysInv, TableOk, Waiters, Enabled, Step;
    UnrelatedIsCalm(j.y, e);
    SchedRuns.StepKeeps(j.y, e);
  }

  lemma ReleaseStep<I, T>(j: Joint<I, T>, i: I)
    requires JointInv(j) && CanAct(j, Act.Release(i))
    ensures JointInv(Do(j, Act.Release(i))) <==> !Linked(j, i)
  {
    var fdset' := map t | t in j.fdset && j.fdset[t] != i :: j.fdset[t];
    if Linked(j, i) {
      var t :| t in j.fdset && j.fdset[t] == i;
      assert t !in fdset' && t in Waiters(j.y);
    } else {
      ReleaseKeeps(j.v, j.fdset, i);
      forall t | t in j.fdset
        ensures j.fdset[t] != i && j.fdset[t] in j.v.items
      {
        assert WaitsFor(j.v, t, j.fdset[t]);
      }
      assert fdset' == j.fdset;
      hide SysInv, TableOk, Waiters;
    }
  }

  lemma CloseStep<I, T>(j: Joint<I, T>, fd: nat)
    requires JointInv(j)
    ensures JointInv(Do(j, Act.Close(fd))) <==> fd !in j.v.io.reg
  {
    IoKeeps(j.v, j.fdset, fd);
    if fd in j.v.io.reg {
      var v' := j.v.(io := PollModel.Close(j.v.io, fd));
      var t :| t in j.fdset && j.fdset[t] == j.v.table[fd];
      assert WaitsFor(j.v, t, j.fdset[t]);
      assert !WaitsFor(v', t, j.fdset[t]);
    }
  }

  /** Every step keeps the waiters and the table in step exactly when nobody else has the item it is about. */
  lemma DoKeeps<I, T>(j: Joint<I, T>, a: Act<I, T>)
    requires JointInv(j) && CanAct(j, a)
    ensures JointInv(Do(j, a)) <==> Tidy(j, a)
  {
    match a
    case Wait(fd, read, ms, now, ready, refused) =>
      WaitReady(j, a, true);
      if j.y.s.th[j.y.s.active].notified {
        EntryKeeps(j, WaitEvent(j, a, true), j.v);
      } else {
        BeginStep(j, a);
      }
    case Io(fd, read, ms, now, refused) => BeginStep(j, a);
    case Return => ReturnKeeps(j);
    case Turn(fs, now) => TurnKeeps(j, fs, now);
    case Other(e) => OtherKeeps(j, e);
    case Register(fd, i) =>
      RegisterKeeps(j.v, j.fdset, fd, i);
    case Release(i) => ReleaseStep(j, i);
    case Open(fd) =>
      IoKeeps(j.v, j.fdset, fd);
    case Close(fd) => CloseStep(j, fd);
  }
}
