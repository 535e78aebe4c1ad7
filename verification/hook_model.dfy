/** The descriptors the system hooks took over, of app/st_sys.cc: an item the hook registered belongs to its
    descriptor's slot until sys_close gives it back, and never stays in the event table after that. */
module HookModel {
  import opened Queues
  import opened PollModel
  import opened EventModel

  /** The event table; for each slot in use its hook_item; the items the hook made and did not give back. */
  datatype Files<I(==), T> = Files(ev: Events<I, T>, hooks: map<nat, Option<I>>, made: set<I>)

  /** hook_item of a slot. */
  function Hook<I(==), T>(f: Files<I, T>, fd: nat): Option<I>
  {
    if fd in f.hooks then f.hooks[fd] else None
  }

  // ---------- operations ----------

  function SysNewFd<I(==), T>(f: Files<I, T>, fd: nat): Files<I, T>
  {
    f.(hooks := f.hooks[fd := None], ev := f.ev.(io := f.ev.io.(open := f.ev.io.open + {fd})))
  }

  /** hook_ensure_item with the item i that the pool gives. */
  function HookEnsure<I(==), T>(f: Files<I, T>, fd: nat, i: I, refused: bool): Files<I, T>
    requires TableInv(f.ev) && i !in f.ev.items
  {
    if fd !in f.hooks || fd in f.ev.table then f
    else
      WithItem(f.ev, fd, i);
      var (ev, ok) := AddItem(Allocated(f.ev, fd, i), i, refused);
      if ok then Files(ev, f.hooks[fd := Some(i)], f.made + {i}) else f.(ev := Freed(ev, i))
  }

  /** The item exists, watches nothing and has no owner. */
  function Allocated<I(==), T>(ev: Events<I, T>, fd: int, i: I): Events<I, T>
  {
    ev.(items := ev.items[i := Item(fd, NONE, NONE, None)])
  }

  /** The item goes back to its pool: nobody may hold it any more. */
  function Freed<I(==), T>(ev: Events<I, T>, i: I): Events<I, T>
  {
    ev.(items := ev.items - {i})
  }

  /** hook_release_item. */
  function HookRelease<I(==), T>(f: Files<I, T>, fd: nat): Files<I, T>
    requires HookInv(f)
  {
    match Hook(f, fd)
    case None => f
    case Some(i) =>
      var ev := if fd in f.ev.table && f.ev.table[fd] == i then ClearItem(f.ev, i) else f.ev;
      Files(Freed(ev, i), f.hooks[fd := None], f.made - {i})
  }

  function SysClose<I(==), T>(f: Files<I, T>, fd: nat): Files<I, T>
    requires HookInv(f)
  {
    var g := if fd in f.hooks then HookRelease(f, fd) else f;
    Files(g.ev.(io := Close(g.ev.io, fd)), g.hooks - {fd}, g.made)
  }

  /** sys_shutdown frees the slot and leaves the rest alone. */
  function SysShutdown<I(==), T>(f: Files<I, T>, fd: nat): Files<I, T>
  {
    f.(hooks := f.hooks - {fd})
  }

  // ---------- the invariant ----------

  /** The table holds existing items only, and each hook item exists and watches its slot's descriptor. */
  ghost predicate HookInv<I, T>(f: Files<I, T>)
  {
    && TableInv(f.ev) && (forall i :: i in f.made ==> i in f.ev.items)
    && (forall fd {:trigger Hook(f, fd)} :: Hook(f, fd).Some? ==>
          && Hook(f, fd).value in f.ev.items && f.ev.items[Hook(f, fd).value].fd == fd && Hook(f, fd).value in f.made)
  }

  /** Every item the hook made and did not give back belongs to a slot, so sys_close can give it back. */
  ghost predicate Accounted<I, T>(f: Files<I, T>)
  {
    forall i :: i in f.made ==> exists fd {:trigger Hook(f, fd)} :: Hook(f, fd) == Some(i)
  }

  lemma WithItem<I, T>(ev: Events<I, T>, fd: int, i: I)
    requires TableInv(ev) && i !in ev.items
    ensures TableInv(Allocated(ev, fd, i))
  {
  }

  lemma FreedKeeps<I, T>(ev: Events<I, T>, i: I)
    requires TableInv(ev) && forall fd :: fd in ev.table ==> ev.table[fd] != i
    ensures TableInv(Freed(ev, i))
  {
  }

  lemma EnsureKeeps<I, T>(f: Files<I, T>, fd: nat, i: I, refused: bool)
    requires HookInv(f) && i !in f.ev.items
    ensures HookInv(HookEnsure(f, fd, i, refused))
  {
    if fd in f.hooks && fd !in f.ev.table {
      var ev0 := Allocated(f.ev, fd, i);
      WithItem(f.ev, fd, i);
      AddItemExact(ev0, i, refused);
      var (ev, ok) := AddItem(ev0, i, refused);
      var f' := HookEnsure(f, fd, i, refused);
      if ok {
        forall x | Hook(f', x).Some?
          ensures Hook(f', x).value in f'.ev.items && f'.ev.items[Hook(f', x).value].fd == x
                  && Hook(f', x).value in f'.made
        {
          assert x != fd ==> Hook(f', x) == Hook(f, x);
        }
      } else {
        assert ev.table == f.ev.table;
        FreedKeeps(ev, i);
        forall x | Hook(f', x).Some?
          ensures Hook(f', x).value in f'.ev.items && f'.ev.items[Hook(f', x).value].fd == x
                  && Hook(f', x).value in f'.made
        {
          assert Hook(f', x) == Hook(f, x);
        }
      }
    }
  }

  /** What clearing the hook item leaves. */
  lemma ClearedExact<I, T>(ev: Events<I, T>, i: I, fd: nat)
    requires TableInv(ev) && fd in ev.table && ev.table[fd] == i
    ensures var ev' := ClearItem(ev, i);
            && TableInv(ev') && ev'.items == ev.items && ev'.table == ev.table - {fd} && OnlyAt(ev, ev', fd)
  {
    DeleteItemExact(ev, i);
    forall x: nat | x != fd
      ensures Same(ev, ClearItem(ev, i), x)
    {
      assert Same(ev, DeleteItem(ev, i).0, x);
    }
  }

  lemma ReleaseKeeps<I, T>(f: Files<I, T>, fd: nat)
    requires HookInv(f)
    ensures var f' := HookRelease(f, fd);
            && HookInv(f') && Hook(f', fd) == None
            && f'.ev.items == f.ev.items - (if Hook(f, fd).Some? then {Hook(f, fd).value} else {})
            && f'.ev.table == f.ev.table - (if Hook(f, fd).Some? && HoldsSlot(f, fd) then {fd} else {})
            && (forall x: nat {:trigger Hook(f', x)} :: x != fd ==> Hook(f', x) == Hook(f, x))
            && OnlyAt(f.ev, f'.ev.(items := f.ev.items), fd)
  {
    OnlyAtRefl(f.ev, fd);
    if Hook(f, fd).Some? {
      var i := Hook(f, fd).value;
      var f' := HookRelease(f, fd);
      if HoldsSlot(f, fd) {
        ClearedExact(f.ev, i, fd);
      }
      var ev := if HoldsSlot(f, fd) then ClearItem(f.ev, i) else f.ev;
      assert forall x :: x in ev.table ==> ev.table[x] != i;
      FreedKeeps(ev, i);
      forall x: nat
        ensures x != fd ==> Hook(f', x) == Hook(f, x)
        ensures Hook(f', x).Some? ==> Hook(f', x).value in f'.ev.items && f'.ev.items[Hook(f', x).value].fd == x
        ensures Hook(f', x).Some? ==> Hook(f', x).value in f'.made
      {
        assert Hook(f, x).Some? ==> f.ev.items[Hook(f, x).value].fd == x;
      }
    }
  }

  /** The hook item of fd is the one in the event table. */
  predicate HoldsSlot<I(==), T>(f: Files<I, T>, fd: nat)
    requires Hook(f, fd).Some?
  {
    fd in f.ev.table && f.ev.table[fd] == Hook(f, fd).value
  }

  /** Changing the poll state of one descriptor keeps the table right when the poll state stays right. */
  lemma IoKeeps<I, T>(ev: Events<I, T>, io: Io)
    requires TableInv(ev) && Synced(io, true) && |io.cache| == |ev.io.cache|
    ensures TableInv(ev.(io := io))
  {
  }

  /** sys_close gives the slot's hook item back and only that: an application's own item stays in the
      table. Behind it the descriptor has no slot in use, no cached mask and no registration, so that its
      number can be reused, and nothing of any other descriptor has changed. */
  lemma CloseExact<I, T>(f: Files<I, T>, fd: nat)
    requires HookInv(f)
    ensures var f' := SysClose(f, fd);
            && HookInv(f') && fd !in f'.hooks && fd !in f'.ev.io.open && fd !in f'.ev.io.reg
            && (fd < |f'.ev.io.cache| ==> f'.ev.io.cache[fd] == NONE)
            && f'.ev.items == f.ev.items - (if Hook(f, fd).Some? then {Hook(f, fd).value} else {})
            && f'.ev.table == f.ev.table - (if Hook(f, fd).Some? && HoldsSlot(f, fd) then {fd} else {})
            && f'.made == f.made - (if Hook(f, fd).Some? then {Hook(f, fd).value} else {})
            && (forall x: nat :: x != fd ==> Hook(f', x) == Hook(f, x))
            && (forall x: nat :: x != fd ==> Same(f.ev, f'.ev, x))
  {
    ReleaseKeeps(f, fd);
    var g := if fd in f.hooks then HookRelease(f, fd) else f;
    assert fd !in f.hooks ==> OnlyAt(f.ev, f.ev, fd) by { OnlyAtRefl(f.ev, fd); }
    CloseKeeps(g.ev.io, fd, true);
    IoKeeps(g.ev, Close(g.ev.io, fd));
    var f' := SysClose(f, fd);
    forall x: nat | x != fd
      ensures Hook(f', x) == Hook(f, x) && Same(f.ev, f'.ev, x)
    {
      assert Hook(g, x) == Hook(f, x);
      assert Same(f.ev, g.ev.(items := f.ev.items), x);
    }
    forall x: nat | Hook(f', x).Some?
      ensures Hook(f', x).value in f'.ev.items && f'.ev.items[Hook(f', x).value].fd == x && Hook(f', x).value in f'.made
    {
      assert Hook(g, x) == Hook(f', x);
    }
  }

  // ---------- runs ----------

  datatype Step<I, T> =
    | NewFd(fd: nat)                      // the kernel gave this number to a socket
    | Ensure(fd: nat, i: I, refused: bool)
    | CloseFd(fd: nat)
    | Shutdown(fd: nat)
    | Make(i: I, item: Item<T>)           // the application makes an item of its own
    | AddOwn(i: I, refused: bool)         // and adds it, which may put the hook's item out of its slot
    | ClearOwn(i: I)
    | FreeOwn(i: I)

  /** What the application and the pool may do. */
  ghost predicate CanStep<I, T>(f: Files<I, T>, s: Step<I, T>)
  {
    match s
    case Ensure(_, i, _) => i !in f.ev.items
    case Make(i, _) => i !in f.ev.items
    case AddOwn(i, _) => i in f.ev.items && i !in f.made
    case ClearOwn(i) => i in f.ev.items && i !in f.made
    case FreeOwn(i) => i in f.ev.items && i !in f.made && forall fd :: fd in f.ev.table ==> f.ev.table[fd] != i
    case _ => true
  }

  ghost function StepOf<I(!new), T(!new)>(f: Files<I, T>, s: Step<I, T>): Files<I, T>
    requires HookInv(f) && CanStep(f, s)
  {
    match s
    case NewFd(fd) => SysNewFd(f, fd)
    case Ensure(fd, i, refused) => HookEnsure(f, fd, i, refused)
    case CloseFd(fd) => SysClose(f, fd)
    case Shutdown(fd) => SysShutdown(f, fd)
    case Make(i, item) => f.(ev := f.ev.(items := f.ev.items[i := item]))
    case AddOwn(i, refused) => f.(ev := AddItem(f.ev, i, refused).0)
    case ClearOwn(i) => f.(ev := ClearItem(f.ev, i))
    case FreeOwn(i) => f.(ev := Freed(f.ev, i))
  }

  lemma SameHooks<I, T>(f: Files<I, T>, f': Files<I, T>)
    requires HookInv(f) && f'.hooks == f.hooks && f'.made == f.made && TableInv(f'.ev)
    requires forall i :: i in f.made ==> i in f'.ev.items && f'.ev.items[i] == f.ev.items[i]
    ensures HookInv(f')
  {
    forall fd | Hook(f', fd).Some?
      ensures Hook(f', fd).value in f'.ev.items && f'.ev.items[Hook(f', fd).value].fd == fd
              && Hook(f', fd).value in f'.made
    {
      assert Hook(f', fd) == Hook(f, fd);
    }
  }

  lemma FewerHooks<I, T>(f: Files<I, T>, f': Files<I, T>, fd: nat)
    requires HookInv(f) && f'.made == f.made && f'.ev.items == f.ev.items && TableInv(f'.ev)
    requires Hook(f', fd) == None && forall x: nat :: x != fd ==> Hook(f', x) == Hook(f, x)
    ensures HookInv(f')
  {
  }

  lemma OpenKeeps<I, T>(ev: Events<I, T>, fd: nat)
    requires TableInv(ev)
    ensures TableInv(ev.(io := ev.io.(open := ev.io.open + {fd})))
  {
    var io' := ev.io.(open := ev.io.open + {fd});
    forall x: nat | x < |io'.cache|
      ensures SyncedAt(io', x, true)
    {
      assert SyncedAt(ev.io, x, true);
    }
  }

  /** Clearing an application's item empties the slot of its descriptor, whoever holds it. */
  lemma ClearOwnKeeps<I, T>(ev: Events<I, T>, i: I)
    requires TableInv(ev) && i in ev.items
    ensures TableInv(ClearItem(ev, i)) && ClearItem(ev, i).items == ev.items
  {
    DeleteItemExact(ev, i);
  }

  lemma StepKeeps<I(!new), T(!new)>(f: Files<I, T>, s: Step<I, T>)
    requires HookInv(f) && CanStep(f, s)
    ensures HookInv(StepOf(f, s))
  {
    match s
    case NewFd(fd) =>
      OpenKeeps(f.ev, fd);
      FewerHooks(f, SysNewFd(f, fd), fd);
    case Ensure(fd, i, refused) => EnsureKeeps(f, fd, i, refused);
    case CloseFd(fd) => CloseExact(f, fd);
    case Shutdown(fd) => FewerHooks(f, SysShutdown(f, fd), fd);
    case Make(i, item) => SameHooks(f, StepOf(f, s));
    case AddOwn(i, refused) =>
      AddItemExact(f.ev, i, refused);
      SameHooks(f, StepOf(f, s));
    case ClearOwn(i) =>
      ClearOwnKeeps(f.ev, i);
      SameHooks(f, StepOf(f, s));
    case FreeOwn(i) =>
      FreedKeeps(f.ev, i);
      SameHooks(f, StepOf(f, s));
  }

  /** hook_ensure_item registers its item: the slot is in use, its descriptor valid and its place in the event
      table empty, and the kernel has nothing to forget of it or does not refuse to. */
  predicate Registers<I(==), T>(f: Files<I, T>, fd: nat, refused: bool)
  {
    fd in f.hooks && fd !in f.ev.table && fd < |f.ev.io.cache| && (f.ev.io.cache[fd] == NONE || !refused)
  }

  lemma EnsureExact<I, T>(f: Files<I, T>, fd: nat, i: I, refused: bool)
    requires HookInv(f) && i !in f.ev.items
    ensures var f' := HookEnsure(f, fd, i, refused);
            if Registers(f, fd, refused) then
              && f'.made == f.made + {i} && f'.hooks == f.hooks[fd := Some(i)] && f'.ev.table == f.ev.table[fd := i]
              && f'.ev.items == f.ev.items[i := Item(fd, NONE, NONE, None)] && Registered(f'.ev.io, fd) == NONE
            else f' == f
  {
    if fd in f.hooks && fd !in f.ev.table && fd < |f.ev.io.cache| {
      WithItem(f.ev, fd, i);
      NoClash(f.ev.io, fd, NONE);
      EpollRefines(f.ev.io, fd, NONE, refused);
      assert Evict(Allocated(f.ev, fd, i), fd, i) == Allocated(f.ev, fd, i);
    }
    assert Freed(Allocated(f.ev, fd, i), i) == f.ev;
  }

  /** The step overwrites or drops the hook_item of a slot. */
  ghost predicate Loses<I(!new), T(!new)>(f: Files<I, T>, s: Step<I, T>)
    requires HookInv(f) && CanStep(f, s)
  {
    match s
    case NewFd(fd) => Hook(f, fd).Some?
    case Shutdown(fd) => Hook(f, fd).Some?
    case Ensure(fd, _, refused) => Hook(f, fd).Some? && Registers(f, fd, refused)
    case _ => false
  }

  /** A slot's hook item belongs to no other slot. */
  lemma OneSlot<I, T>(f: Files<I, T>, x: nat, y: nat)
    requires HookInv(f) && Hook(f, x).Some? && Hook(f, x) == Hook(f, y)
    ensures x == y
  {
  }

  /** No item the hook made is lost, exactly when the step overwrites or drops no hook_item: sys_shutdown
      of a hooked descriptor, a number given anew without sys_close, and hook_ensure_item after an
      application emptied the slot do. */
  lemma StepAccounts<I(!new), T(!new)>(f: Files<I, T>, s: Step<I, T>)
    requires HookInv(f) && CanStep(f, s) && Accounted(f)
    ensures Accounted(StepOf(f, s)) <==> !Loses(f, s)
  {
    StepKeeps(f, s);
    if s.Ensure? {
      EnsureExact(f, s.fd, s.i, s.refused);
    }
    var f' := StepOf(f, s);
    if Loses(f, s) {
      var i := Hook(f, s.fd).value;
      assert i in f'.made;
      if x: nat :| Hook(f', x) == Some(i) {
        LostStays(f, s, x, i);
      }
    } else {
      forall i | i in f'.made
        ensures exists fd {:trigger Hook(f', fd)} :: Hook(f', fd) == Some(i)
      {
        StillHeld(f, s, i);
      }
    }
  }

  lemma LostStays<I(!new), T(!new)>(f: Files<I, T>, s: Step<I, T>, x: nat, i: I)
    requires HookInv(f) && CanStep(f, s) && Loses(f, s) && Hook(f, s.fd) == Some(i)
    ensures Hook(StepOf(f, s), x) != Some(i)
  {
    if s.Ensure? {
      EnsureExact(f, s.fd, s.i, s.refused);
    }
    if Hook(f, x) == Some(i) {
      OneSlot(f, x, s.fd);
    }
  }

  lemma StillHeld<I(!new), T(!new)>(f: Files<I, T>, s: Step<I, T>, i: I)
    requires HookInv(f) && CanStep(f, s) && Accounted(f) && !Loses(f, s) && i in StepOf(f, s).made
    ensures exists fd {:trigger Hook(StepOf(f, s), fd)} :: Hook(StepOf(f, s), fd) == Some(i)
  {
    var f' := StepOf(f, s);
    if s.CloseFd? {
      CloseExact(f, s.fd);
    }
    if s.Ensure? {
      EnsureExact(f, s.fd, s.i, s.refused);
    }
    if i in f.made {
      var fd :| Hook(f, fd) == Some(i);
      assert Hook(f', fd) == Some(i);
    } else {
      assert s.Ensure? && i == s.i;
      assert Hook(f', s.fd) == Some(i);
    }
  }

  /** A step of a run; nothing is said about a step from a broken state. */
  ghost predicate StepTo<I(!new), T(!new)>(f: Files<I, T>, s: Step<I, T>, f': Files<I, T>)
  {
    CanStep(f, s) && (HookInv(f) ==> f' == StepOf(f, s))
  }

  /** Runs from an empty table. */
  ghost predicate Reachable<I(!new), T(!new)>(f: Files<I, T>, n: nat)
    decreases n
  {
    if n == 0 then TableInv(f.ev) && f.ev.table == map[] && f.hooks == map[] && f.made == {}
    else exists g, s :: Reachable(g, n - 1) && StepTo(g, s, f)
  }

  /** In every run the event table never holds an item that went back to its pool, and every slot's
      hook_item exists and watches that slot's descriptor. */
  lemma {:induction false} EveryReachableTable<I(!new), T(!new)>(f: Files<I, T>, n: nat)
    requires Reachable(f, n)
    ensures HookInv(f)
    decreases n
  {
    if n > 0 {
      var g, s :| Reachable(g, n - 1) && StepTo(g, s, f);
      EveryReachableTable(g, n - 1);
      StepKeeps(g, s);
    }
  }

  /** From f the steps ss lead to f'. */
  ghost predicate Leads<I(!new), T(!new)>(f: Files<I, T>, ss: seq<Step<I, T>>, f': Files<I, T>)
    decreases |ss|
  {
    if ss == [] then f' == f
    else HookInv(f) && CanStep(f, ss[0]) && Leads(StepOf(f, ss[0]), ss[1..], f')
  }

  /** No slot names the item. */
  ghost predicate Unnamed<I, T>(f: Files<I, T>, i: I)
  {
    forall fd {:trigger Hook(f, fd)} :: Hook(f, fd) != Some(i)
  }

  lemma StaysUnnamed<I(!new), T(!new)>(f: Files<I, T>, s: Step<I, T>, i: I)
    requires HookInv(f) && CanStep(f, s) && i in f.made && Unnamed(f, i)
    ensures i in StepOf(f, s).made && Unnamed(StepOf(f, s), i)
  {
    var f' := StepOf(f, s);
    if s.CloseFd? {
      CloseExact(f, s.fd);
    }
    if s.Ensure? {
      EnsureExact(f, s.fd, s.i, s.refused);
    }
    forall fd: nat
      ensures Hook(f', fd) != Some(i)
    {
      assert Hook(f, fd) != Some(i);
    }
  }

  /** A lost item never goes back to its pool, whatever comes after. */
  lemma {:induction false} LostForGood<I(!new), T(!new)>(f: Files<I, T>, ss: seq<Step<I, T>>, f': Files<I, T>, i: I)
    requires HookInv(f) && Leads(f, ss, f') && i in f.made && Unnamed(f, i)
    ensures i in f'.made && i in f'.ev.items && Unnamed(f', i)
    decreases |ss|
  {
    if ss != [] {
      StepKeeps(f, ss[0]);
      StaysUnnamed(f, ss[0], i);
      LostForGood(StepOf(f, ss[0]), ss[1..], f', i);
    }
  }

  /** Room for one descriptor, and nothing in it. */
  function Empty<I(==), T>(): Files<I, T>
  {
    Files(Events(Io([NONE], map[], {}), map[], map[]), map[], {})
  }

  lemma LeadsStep<I(!new), T(!new)>(f: Files<I, T>, s: Step<I, T>, ss: seq<Step<I, T>>, f': Files<I, T>)
    requires Leads(f, [s] + ss, f')
    ensures HookInv(f) && CanStep(f, s) && Leads(StepOf(f, s), ss, f')
  {
    assert ([s] + ss)[1..] == ss;
  }

  lemma StepLeads<I(!new), T(!new)>(f: Files<I, T>, s: Step<I, T>, ss: seq<Step<I, T>>, f': Files<I, T>)
    requires HookInv(f) && CanStep(f, s) && Leads(StepOf(f, s), ss, f')
    ensures Leads(f, [s] + ss, f')
  {
    assert ([s] + ss)[1..] == ss;
  }

  /** Descriptor 0 is opened and hooked. */
  function Hooked<I(==), T>(i: I): Files<I, T>
  {
    Files(Events(Io([NONE], map[], {0}), map[0 := i], map[i := Item(0, NONE, NONE, None)]), map[0 := Some(i)], {i})
  }

  lemma HookedIs<I(!new), T(!new)>(i: I)
    ensures HookInv<I, T>(Empty()) && StepOf<I, T>(Empty(), NewFd(0)) == Opened()
    ensures HookInv<I, T>(Opened()) && StepOf<I, T>(Opened(), Ensure(0, i, false)) == Hooked(i)
    ensures HookInv<I, T>(Hooked(i))
  {
  }

  function Opened<I(==), T>(): Files<I, T>
  {
    Files(Events(Io([NONE], map[], {0}), map[], map[]), map[0 := None], {})
  }

  /** A descriptor is opened, hooked and shut down: its item is lost, whatever comes after. */
  lemma ShutdownLosesItem<I(!new), T(!new)>(i: I, ss: seq<Step<I, T>>, f: Files<I, T>)
    requires Leads(Empty(), [NewFd(0), Ensure(0, i, false), Shutdown(0)] + ss, f)
    ensures i in f.made && Unnamed(f, i) && !Accounted(f)
  {
    hide Leads, HookInv;
    HookedIs<I, T>(i);
    assert [NewFd(0), Ensure(0, i, false), Shutdown(0)] + ss
        == [NewFd(0)] + ([Ensure(0, i, false)] + ([Shutdown(0)] + ss));
    LeadsStep(Empty(), NewFd(0), [Ensure(0, i, false)] + ([Shutdown(0)] + ss), f);
    LeadsStep(Opened(), Ensure(0, i, false), [Shutdown(0)] + ss, f);
    LeadsStep(Hooked(i), Shutdown(0), ss, f);
    StepKeeps<I, T>(Hooked(i), Shutdown(0));
    LostForGood(StepOf(Hooked(i), Shutdown(0)), ss, f, i);
  }

  /** There is such a run. */
  lemma ShutdownRunExists<I(!new), T(!new)>(i: I) returns (f: Files<I, T>)
    ensures Leads(Empty(), [NewFd(0), Ensure(0, i, false), Shutdown(0)], f)
  {
    HookedIs<I, T>(i);
    f := StepOf(Hooked(i), Shutdown(0));
    StepLeads(Hooked(i), Shutdown(0), [], f);
    var last: seq<Step<I, T>> := [Shutdown(0)];
    assert last + [] == last && [Ensure(0, i, false)] + last == [Ensure(0, i, false), Shutdown(0)];
    assert [NewFd(0)] + ([Ensure(0, i, false)] + last) == [NewFd(0), Ensure(0, i, false), Shutdown(0)];
    StepLeads(Opened(), Ensure(0, i, false), last, f);
    StepLeads(Empty(), NewFd(0), [Ensure(0, i, false)] + last, f);
  }
}
