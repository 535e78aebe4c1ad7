/** Dispatch of src/st_thread.cc on values: which coroutines a batch of fired events makes runnable. */
module EventDispatch {
  import opened HeapModel
  import opened Queues
  import opened SchedModel
  import opened SchedInvariant
  import opened SchedOps
  import opened SchedRuns
  import opened PollModel
  import opened EventModel

  /** An entry of m_fired_, and what EvInput and EvOutput of its item would return. */
  datatype Fired = Fired(fd: int, mask: Mask, input: int, output: int)

  /** The coroutine that owns the item in the slot of f, if there is such a slot. */
  function OwnerOf<I(==), T>(v: Events<I, T>, f: Fired): Option<T>
    requires TableInv(v)
  {
    if ValidFd(v, f.fd) && f.fd in v.table then v.items[v.table[f.fd]].owner else None
  }

  /** An error is handled; else the handler of input decides, or that of output when nothing is to be read. */
  predicate Handles(f: Fired)
  {
    f.mask.err || if f.mask.read then f.input == 0 else f.mask.write && f.output == 0
  }

  /** The owner is handed to IOWaitToRunable once for an error, else once for each bit whose handler
      returned 0, the read bit first and the write bit only after a read bit that went well. */
  function Handled(f: Fired): (n: nat)
    ensures n > 0 <==> Handles(f)
  {
    if f.mask.err then 1
    else if f.mask.read && f.input != 0 then 0
    else (if f.mask.read then 1 else 0) + (if f.mask.write && f.output == 0 then 1 else 0)
  }

  function Times<T>(t: T, n: nat): seq<T>
  {
    seq(n, _ => t)
  }

  /** The coroutines one fired event is reported to, one mention for each report. */
  function Reported<I(==), T>(v: Events<I, T>, f: Fired): seq<T>
    requires TableInv(v)
  {
    match OwnerOf(v, f)
    case Some(t) => Times(t, Handled(f))
    case None => []
  }

  /** What one fired event does to the table, the items and the poll state. */
  function EventStep<I(==), T>(v: Events<I, T>, f: Fired): Events<I, T>
    requires TableInv(v)
  {
    if !ValidFd(v, f.fd) then v
    else if f.fd !in v.table then DeleteFd(v, f.fd, f.mask).0
    else
      var i := v.table[f.fd];
      var v1 := v.(items := v.items[i := v.items[i].(revents := f.mask)]);
      if f.mask.err then ClearItem(v1, i) else v1
  }

  lemma EventStepKeeps<I, T>(v: Events<I, T>, f: Fired)
    requires TableInv(v)
    ensures TableInv(EventStep(v, f))
    ensures EventStep(v, f).items.Keys == v.items.Keys
    ensures forall i :: i in v.items ==>
              EventStep(v, f).items[i] == v.items[i].(revents := EventStep(v, f).items[i].revents)
    ensures forall x: nat :: x != f.fd ==>
              (x in EventStep(v, f).table <==> x in v.table)
              && (x in v.table ==> EventStep(v, f).table[x] == v.table[x])
    ensures |EventStep(v, f).io.cache| == |v.io.cache|
  {
    if ValidFd(v, f.fd) {
      if f.fd !in v.table {
        EpollRefines(v.io, f.fd, f.mask, false);
      } else {
        var i := v.table[f.fd];
        EpollRefines(v.io, f.fd, v.items[i].events, false);
      }
    }
  }

  /** An event of an unknown descriptor changes nothing; one of a descriptor without an item ends the interest
      in it; any other is recorded with the item, and an error also ends the item's interest and empties its
      slot. */
  lemma EventStepExact<I, T>(v: Events<I, T>, f: Fired)
    requires TableInv(v)
    ensures var v' := EventStep(v, f);
            && (!ValidFd(v, f.fd) ==> v' == v)
            && (ValidFd(v, f.fd) && f.fd !in v.table ==>
                  && v'.table == v.table && v'.items == v.items
                  && Registered(v'.io, f.fd) == Interest(Minus(v.io.cache[f.fd], f.mask)))
            && (ValidFd(v, f.fd) && f.fd in v.table ==>
                  && v'.items[v.table[f.fd]].revents == f.mask
                  && (if f.mask.err then
                        && f.fd !in v'.table
                        && Registered(v'.io, f.fd) == Interest(Minus(v.io.cache[f.fd], v.items[v.table[f.fd]].events))
                      else v'.table == v.table && v'.io == v.io))
  {
    if ValidFd(v, f.fd) {
      if f.fd !in v.table {
        EpollRefines(v.io, f.fd, f.mask, false);
      } else {
        EpollRefines(v.io, f.fd, v.items[v.table[f.fd]].events, false);
      }
    }
  }

  /** The read and the write bit of an event, handled for its owner. */
  function HandleBits<T(==)>(s: Sched<T>, t: T, f: Fired): Sched<T>
    requires Quiet(s) && t in s.th
  {
    WakeOwnerKeeps(s, t);
    if f.mask.read && f.input != 0 then s
    else
      var s1 := if f.mask.read then WakeOwner(s, t) else s;
      if f.mask.write && f.output != 0 then s1
      else if f.mask.write then (WakeOwnerKeeps(s1, t); WakeOwner(s1, t))
      else s1
  }

  /** What one fired event does for the owner of its item. */
  function Report<T(==)>(s: Sched<T>, owner: Option<T>, f: Fired): Sched<T>
    requires Quiet(s) && (owner.Some? ==> owner.value in s.th)
  {
    if owner.None? then s
    else if f.mask.err then (WakeOwnerKeeps(s, owner.value); WakeOwner(s, owner.value))
    else HandleBits(s, owner.value, f)
  }

  /** One pass of the loop in Dispatch, on the scheduler as well. */
  function DispatchOne<I(==), T(==)>(v: Events<I, T>, s: Sched<T>, f: Fired): (Events<I, T>, Sched<T>)
    requires TableInv(v) && Quiet(s)
    requires OwnerOf(v, f).Some? ==> OwnerOf(v, f).value in s.th
  {
    (EventStep(v, f), Report(s, OwnerOf(v, f), f))
  }

  /** Every owner of an item is a live coroutine. */
  ghost predicate OwnersLive<I, T>(v: Events<I, T>, s: Sched<T>)
  {
    forall i :: i in v.items && v.items[i].owner.Some? ==> v.items[i].owner.value in s.th
  }

  ghost predicate Dispatchable<I, T>(v: Events<I, T>, s: Sched<T>)
  {
    TableInv(v) && Quiet(s) && OwnersLive(v, s)
  }

  lemma WakeOwnerThreads<T>(s: Sched<T>, t: T)
    requires Quiet(s) && t in s.th
    ensures s.th[t].ioFlag ==> s.th[t].link == InIo
    ensures Quiet(WakeOwner(s, t)) && WakeOwner(s, t).th.Keys == s.th.Keys
  {
    hide Inv, IOWaitToRunable;
    WakeOwnerKeeps(s, t);
  }

  lemma WakeTwiceReady<T>(s: Sched<T>, t: T)
    requires Quiet(s) && t in s.th
    ensures s.th[t].ioFlag ==> s.th[t].link == InIo
    ensures var s1 := WakeOwner(s, t); Quiet(s1) && t in s1.th && (s1.th[t].ioFlag ==> s1.th[t].link == InIo)
  {
    WakeOwnerThreads(s, t);
    WakeOwnerThreads(WakeOwner(s, t), t);
  }

  lemma WakeOnce<T>(s: Sched<T>, t: T)
    requires Quiet(s) && t in s.th
    ensures WakeOwners(s, []) == s
    ensures s.th[t].ioFlag ==> s.th[t].link == InIo
    ensures WakeOwners(s, [t]) == WakeOwner(s, t)
    ensures var s1 := WakeOwner(s, t);
            && Quiet(s1) && t in s1.th && (s1.th[t].ioFlag ==> s1.th[t].link == InIo)
            && WakeOwners(s, [t, t]) == WakeOwner(s1, t)
  {
    hide Inv, WakeOwner;
    WakeTwiceReady(s, t);
    WakeOwnerThreads(WakeOwner(s, t), t);
    assert [t][1..] == [] && [t, t][1..] == [t];
    assert WakeOwners(WakeOwner(s, t), [t]) == WakeOwners(WakeOwner(WakeOwner(s, t), t), []);
  }

  /** What the owner gets out of one event: a wake-up for each report. */
  lemma ReportWakes<T>(s: Sched<T>, t: T, f: Fired)
    requires Quiet(s) && t in s.th
    ensures Report(s, Some(t), f) == WakeOwners(s, Times(t, Handled(f)))
  {
    hide Inv, WakeOwner, WakeOwners;
    WakeOnce(s, t);
    assert Times(t, 0) == [] && Times(t, 1) == [t] && Times(t, 2) == [t, t];
  }

  /** One fired event wakes exactly the coroutine it is reported to. */
  lemma DispatchOneExact<I, T>(v: Events<I, T>, s: Sched<T>, f: Fired)
    requires Dispatchable(v, s)
    ensures forall t :: t in Reported(v, f) ==> t in s.th
    ensures DispatchOne(v, s, f) == (EventStep(v, f), WakeOwners(s, Reported(v, f)))
  {
    hide Inv, TableInv, EventStep, OwnerOf, Handled, WakeOwner, WakeOwners;
    OwnerIsLive(v, s, f);
    match OwnerOf(v, f)
    case Some(t) => ReportWakes(s, t, f);
    case None => WakeNobody(s);
  }

  lemma WakeNobody<T>(s: Sched<T>)
    requires Quiet(s)
    ensures WakeOwners(s, []) == s
  {
  }

  lemma OwnerIsLive<I, T>(v: Events<I, T>, s: Sched<T>, f: Fired)
    requires TableInv(v) && OwnersLive(v, s)
    ensures OwnerOf(v, f).Some? ==> OwnerOf(v, f).value in s.th
  {
  }

  /** The loop in Dispatch. */
  function Dispatch<I(==), T(==)>(v: Events<I, T>, s: Sched<T>, fs: seq<Fired>): (Events<I, T>, Sched<T>)
    requires Dispatchable(v, s)
    decreases |fs|
  {
    if fs == [] then (v, s)
    else
      DispatchOneKeeps(v, s, fs[0]);
      var (v1, s1) := DispatchOne(v, s, fs[0]);
      Dispatch(v1, s1, fs[1..])
  }

  lemma DispatchOneKeeps<I, T>(v: Events<I, T>, s: Sched<T>, f: Fired)
    requires Dispatchable(v, s)
    ensures OwnerOf(v, f).Some? ==> OwnerOf(v, f).value in s.th
    ensures var (v1, s1) := DispatchOne(v, s, f);
            Dispatchable(v1, s1) && s1.th.Keys == s.th.Keys
  {
    OwnerIsLive(v, s, f);
    DispatchOneExact(v, s, f);
    EventStepKeeps(v, f);
    var woken := WakeOwnersExact(s, Reported(v, f));
    hide DispatchOne, EventStep, TableInv, Inv;
  }

  /** The owners a whole batch is reported to, in order. */
  function AllReported<I(==), T>(v: Events<I, T>, fs: seq<Fired>): seq<T>
    requires TableInv(v)
    decreases |fs|
  {
    if fs == [] then []
    else (EventStepKeeps(v, fs[0]); Reported(v, fs[0]) + AllReported(EventStep(v, fs[0]), fs[1..]))
  }

  lemma {:induction false} WakeOwnersAppend<T>(s: Sched<T>, a: seq<T>, b: seq<T>)
    requires Quiet(s) && (forall t :: t in a ==> t in s.th) && (forall t :: t in b ==> t in s.th)
    ensures Quiet(WakeOwners(s, a)) && WakeOwners(s, a).th.Keys == s.th.Keys
    ensures WakeOwners(s, a + b) == WakeOwners(WakeOwners(s, a), b)
    decreases |a|
  {
    hide Inv, WakeOwner;
    if a == [] {
      assert a + b == b;
    } else {
      var woken := WakeOwnersExact(s, a);
      WakeOwnerThreads(s, a[0]);
      assert (a + b)[0] == a[0] && (a + b)[1..] == a[1..] + b;
      WakeOwnersAppend(WakeOwner(s, a[0]), a[1..], b);
    }
  }

  /** Dispatch wakes the owners its events are reported to, in order. */
  lemma {:induction false} DispatchIsWakeOwners<I, T>(v: Events<I, T>, s: Sched<T>, fs: seq<Fired>)
    requires Dispatchable(v, s)
    ensures forall t :: t in AllReported(v, fs) ==> t in s.th
    ensures Dispatch(v, s, fs).1 == WakeOwners(s, AllReported(v, fs))
    ensures TableInv(Dispatch(v, s, fs).0)
    decreases |fs|
  {
    hide TableInv, Inv, DispatchOne, EventStep, Reported, WakeOwner;
    if fs == [] {
      WakeNobody(s);
    } else {
      DispatchOneKeeps(v, s, fs[0]);
      DispatchOneExact(v, s, fs[0]);
      var (v1, s1) := DispatchOne(v, s, fs[0]);
      DispatchIsWakeOwners(v1, s1, fs[1..]);
      WakeOwnersAppend(s, Reported(v, fs[0]), AllReported(v1, fs[1..]));
    }
  }

  /** For any batch of fired events, with several descriptors or both bits for one owner: each owner
      that was an IO waiter enters the run queue exactly once, behind what was there, and nobody else does. */
  lemma DispatchWakesOnce<I, T>(v: Events<I, T>, s: Sched<T>, fs: seq<Fired>) returns (woken: seq<T>)
    requires Dispatchable(v, s)
    ensures var s' := Dispatch(v, s, fs).1;
            && Quiet(s') && NoDup(woken) && MovedToRun(s, s', woken)
            && (forall t :: t in woken <==> t in AllReported(v, fs) && t in s.io)
  {
    DispatchIsWakeOwners(v, s, fs);
    woken := WakeOwnersExact(s, AllReported(v, fs));
  }

  /** No earlier event of the batch was an error of the same descriptor, which clears its slot. */
  ghost predicate StillThere(fs: seq<Fired>, k: nat)
    requires k < |fs|
  {
    forall j :: 0 <= j < k && fs[j].fd == fs[k].fd ==> !fs[j].mask.err
  }

  /** A coroutine is reported to if and only if it owns the item that was in the slot of a fired descriptor,
      a handler of that event succeeds or it is an error, and no error of that descriptor came before it. */
  lemma {:induction false} ReportedTo<I, T>(v: Events<I, T>, fs: seq<Fired>, t: T)
    requires TableInv(v)
    ensures t in AllReported(v, fs) <==>
              exists k :: 0 <= k < |fs| && OwnerOf(v, fs[k]) == Some(t) && Handles(fs[k]) && StillThere(fs, k)
    decreases |fs|
  {
    if fs != [] {
      EventStepKeeps(v, fs[0]);
      var v1, rest := EventStep(v, fs[0]), fs[1..];
      ReportedTo(v1, rest, t);
      hide EventStep, TableInv, Handled, Handles, StillThere;
      forall k | 0 <= k < |rest|
        ensures rest[k] == fs[k + 1]
        ensures OwnerOf(v1, rest[k]) == Some(t) && StillThere(rest, k)
           <==> OwnerOf(v, fs[k + 1]) == Some(t) && StillThere(fs, k + 1)
      {
        OwnerAfter(v, fs[0], rest[k]);
        LaterStillThere(fs, k);
      }
      FirstStillThere(fs);
      InTimes(t, OwnerOf(v, fs[0]), Handled(fs[0]));
      assert t in Reported(v, fs[0]) <==> OwnerOf(v, fs[0]) == Some(t) && Handles(fs[0]);
      if k :| 0 <= k < |fs| && OwnerOf(v, fs[k]) == Some(t) && Handles(fs[k]) && StillThere(fs, k) {
        if k > 0 {
          assert OwnerOf(v1, rest[k - 1]) == Some(t);
        }
      }
      if k :| 0 <= k < |rest| && OwnerOf(v1, rest[k]) == Some(t) && Handles(rest[k]) && StillThere(rest, k) {
        assert OwnerOf(v, fs[k + 1]) == Some(t);
      }
    }
  }

  lemma FirstStillThere(fs: seq<Fired>)
    requires fs != []
    ensures StillThere(fs, 0)
  {
  }

  lemma LaterStillThere(fs: seq<Fired>, k: nat)
    requires k + 1 < |fs|
    ensures StillThere(fs, k + 1) <==> StillThere(fs[1..], k) && !(fs[0].fd == fs[k + 1].fd && fs[0].mask.err)
  {
    assert forall j :: 0 <= j < |fs| - 1 ==> fs[1..][j] == fs[j + 1];
    assert forall j :: 1 <= j < |fs| ==> fs[j] == fs[1..][j - 1];
  }

  /** An error takes the owner of its descriptor away; every other owner stays. */
  lemma OwnerAfter<I, T>(v: Events<I, T>, f: Fired, g: Fired)
    requires TableInv(v)
    ensures TableInv(EventStep(v, f))
    ensures OwnerOf(EventStep(v, f), g) == if f.fd == g.fd && f.mask.err then None else OwnerOf(v, g)
  {
    EventStepKeeps(v, f);
    if ValidFd(v, g.fd) && g.fd in v.table {
      var i := v.table[g.fd];
      assert EventStep(v, f).items[i].owner == v.items[i].owner;
    }
  }

  lemma InTimes<T>(t: T, owner: Option<T>, n: nat)
    ensures (match owner case Some(u) => t in Times(u, n) case None => false) <==> owner == Some(t) && n > 0
  {
    if owner.Some? && n > 0 {
      assert Times(owner.value, n)[0] == owner.value;
    }
  }
}
