/** The two poll backends on values: the mask cache of StIOState, and what the kernel has registered
    for each open descriptor. */
module PollModel {

  /** The bits ST_READABLE, ST_WRITEABLE and ST_EVERR. */
  datatype Mask = Mask(read: bool, write: bool, err: bool)

  const NONE := Mask(false, false, false)

  function Minus(m: Mask, d: Mask): Mask
  {
    Mask(m.read && !d.read, m.write && !d.write, m.err && !d.err)
  }

  /** What a mask asks of the kernel: the error bit has no filter and no EPOLL flag of its own. */
  function Interest(m: Mask): Mask
  {
    m.(err := false)
  }

  /** m_file_[fd].mask for each fd, the kernel's registrations, and the descriptors that are open. */
  datatype Io = Io(cache: seq<Mask>, reg: map<nat, Mask>, open: set<nat>)

  datatype Errno = Ok | Exists | NoEntry | BadFd | Refused

  function Registered(io: Io, fd: nat): Mask
  {
    if fd in io.reg then io.reg[fd] else NONE
  }

  // ---------- epoll ----------

  datatype Op = CtlAdd | CtlMod | CtlDel

  /** epoll_ctl. `refused` stands for the kernel's other reasons to fail, such as lack of memory. */
  function Ctl(io: Io, op: Op, fd: nat, events: Mask, refused: bool): (Io, Errno)
  {
    if fd !in io.open then (io, BadFd)
    else if op == CtlAdd && fd in io.reg then (io, Exists)
    else if op != CtlAdd && fd !in io.reg then (io, NoEntry)
    else if refused then (io, Refused)
    else (io.(reg := if op == CtlDel then io.reg - {fd} else io.reg[fd := events]), Ok)
  }

  /** The call of epoll_ctl that AddEvent makes, if any. */
  function AddOp(io: Io, fd: nat, mask: Mask): Op
    requires fd < |io.cache|
  {
    if io.cache[fd] == NONE then CtlAdd else CtlMod
  }

  function EpollDel(io: Io, fd: nat, delmask: Mask, refused: bool): (r: (Io, bool))
    requires fd < |io.cache|
  {
    var cur := io.cache[fd];
    var mask := Minus(cur, delmask);
    if cur == NONE || mask == cur then (io, true)
    else
      var (io1, e) := Ctl(io, if mask != NONE then CtlMod else CtlDel, fd, Interest(mask), refused);
      if e == Ok then (io1.(cache := io1.cache[fd := mask]), true)
      else if mask == NONE && e == NoEntry then (io1.(cache := io1.cache[fd := NONE]), true)
      else (io1, false)
  }

  function EpollAdd(io: Io, fd: nat, mask: Mask, refused: bool): (r: (Io, bool))
    requires fd < |io.cache|
  {
    if io.cache[fd] == mask then (io, true)
    else if mask == NONE then EpollDel(io, fd, io.cache[fd], refused)
    else
      var (io1, e) := Ctl(io, AddOp(io, fd, mask), fd, Interest(mask), refused);
      if e == Ok then (io1.(cache := io1.cache[fd := mask]), true) else (io1, false)
  }

  // ---------- kqueue ----------

  /** A filter of a descriptor set or cleared in the kernel's table. */
  function WithFilter(io: Io, fd: nat, write: bool, on: bool): Io
  {
    var m := Registered(io, fd);
    var m1 := if write then m.(write := on) else m.(read := on);
    io.(reg := if m1 == NONE then io.reg - {fd} else io.reg[fd := m1])
  }

  /** kevent with one change: EV_ADD may be refused, EV_DELETE fails only when the filter is absent. */
  function Kevent(io: Io, fd: nat, write: bool, add: bool, refused: bool): (Io, Errno)
  {
    if fd !in io.open then (io, BadFd)
    else if add && refused then (io, Refused)
    else if !add && !(if write then Registered(io, fd).write else Registered(io, fd).read) then (io, NoEntry)
    else (WithFilter(io, fd, write, add), Ok)
  }

  function KqueueAdd(io: Io, fd: nat, mask: Mask, refuseRead: bool, refuseWrite: bool): (r: (Io, bool))
    requires fd < |io.cache|
  {
    if io.cache[fd] == mask then (io, true)
    else
      var (io1, e1) := Kevent(io, fd, false, mask.read, refuseRead);
      if mask.read && e1 != Ok then (io1, false)
      else
        var (io2, e2) := Kevent(io1, fd, true, mask.write, refuseWrite);
        if mask.write && e2 != Ok then (io2, false)
        else (io2.(cache := io2.cache[fd := mask]), true)
  }

  function KqueueDel(io: Io, fd: nat, delmask: Mask, refuseRead: bool, refuseWrite: bool): (r: (Io, bool))
    requires fd < |io.cache|
  {
    KqueueAdd(io, fd, Minus(io.cache[fd], delmask), refuseRead, refuseWrite)
  }

  // ---------- closing ----------

  /** sys_close: the cached mask is cleared, then the kernel drops the descriptor and its entry. */
  function Close(io: Io, fd: nat): Io
  {
    Io(if fd < |io.cache| then io.cache[fd := NONE] else io.cache, io.reg - {fd}, io.open - {fd})
  }

  /** close that does not go through sys_close. */
  function RawClose(io: Io, fd: nat): Io
  {
    io.(reg := io.reg - {fd}, open := io.open - {fd})
  }

  // ---------- the specification both backends meet ----------

  /** At one descriptor the kernel holds exactly the interest of the cached mask. `entries` tells a
      backend that keeps an entry for every non-empty mask from one that keeps filters only. */
  ghost predicate SyncedAt(io: Io, fd: nat, entries: bool)
    requires fd < |io.cache|
  {
    && Registered(io, fd) == Interest(io.cache[fd])
    && (fd in io.reg ==> fd in io.open)
    && (fd in io.reg <==> if entries then io.cache[fd] != NONE else Interest(io.cache[fd]) != NONE)
  }

  ghost predicate Synced(io: Io, entries: bool)
  {
    && (forall fd {:trigger SyncedAt(io, fd, entries)} :: 0 <= fd < |io.cache| ==> SyncedAt(io, fd, entries))
    && (forall fd :: fd in io.reg ==> fd < |io.cache|)
  }

  /** Interest becomes exactly the mask, and nothing else changes. */
  ghost predicate Becomes(io: Io, io': Io, fd: nat, mask: Mask)
    requires fd < |io.cache|
  {
    && io' == io.(cache := io.cache[fd := mask], reg := io'.reg)
    && Registered(io', fd) == Interest(mask)
    && (forall x: nat :: x != fd ==> (x in io'.reg <==> x in io.reg) && (x in io.reg ==> io'.reg[x] == io.reg[x]))
  }

  lemma SyncedElsewhere(io: Io, io': Io, fd: nat, entries: bool)
    requires Synced(io, entries) && fd < |io.cache| && |io'.cache| == |io.cache| && SyncedAt(io', fd, entries)
    requires forall x: nat :: x != fd ==> (x in io'.reg <==> x in io.reg) && (x in io.reg ==> io'.reg[x] == io.reg[x])
    requires forall x: nat :: x != fd ==> (x in io'.open <==> x in io.open)
    requires forall x: nat :: x < |io.cache| && x != fd ==> io'.cache[x] == io.cache[x]
    ensures Synced(io', entries)
  {
    forall x: nat | x < |io'.cache|
      ensures SyncedAt(io', x, entries)
    {
      assert SyncedAt(io, x, entries);
    }
  }

  /** AddEvent and DelEvent of the epoll backend: the interest becomes exactly the mask, or, when the
      descriptor is closed or the kernel refuses, nothing changes; the cache stays right. */
  lemma EpollRefines(io: Io, fd: nat, mask: Mask, refused: bool)
    requires Synced(io, true) && fd < |io.cache|
    ensures var (io', ok) := EpollAdd(io, fd, mask, refused);
            && Synced(io', true)
            && (ok <==> io.cache[fd] == mask || (fd in io.open && !refused))
            && (if ok then Becomes(io, io', fd, mask) else io' == io)
    ensures var (io', ok) := EpollDel(io, fd, mask, refused);
            && Synced(io', true)
            && (ok <==> Minus(io.cache[fd], mask) == io.cache[fd] || !refused)
            && (if ok then Becomes(io, io', fd, Minus(io.cache[fd], mask)) else io' == io)
  {
    assert SyncedAt(io, fd, true);
    var add := EpollAdd(io, fd, mask, refused).0;
    var del := EpollDel(io, fd, mask, refused).0;
    SyncedElsewhere(io, add, fd, true);
    SyncedElsewhere(io, del, fd, true);
  }

  /** An ADD never meets an existing entry, and a MOD or DEL never a missing one. */
  lemma NoClash(io: Io, fd: nat, mask: Mask)
    requires Synced(io, true) && fd < |io.cache|
    ensures AddOp(io, fd, mask) == CtlAdd <==> fd !in io.reg
    ensures io.cache[fd] != NONE ==> fd in io.reg && fd in io.open
  {
    assert SyncedAt(io, fd, true);
  }

  /** AddEvent and DelEvent of the kqueue backend keep the cache right exactly when no filter change
      is left half done: the write filter is not refused after the read filter changed. */
  ghost predicate HalfDone(io: Io, fd: nat, mask: Mask, refuseRead: bool, refuseWrite: bool)
    requires fd < |io.cache|
  {
    && io.cache[fd] != mask && fd in io.open
    && !(mask.read && refuseRead) && mask.write && refuseWrite
    && mask.read != io.cache[fd].read
  }

  lemma KqueueRefines(io: Io, fd: nat, mask: Mask, refuseRead: bool, refuseWrite: bool)
    requires Synced(io, false) && fd < |io.cache|
    ensures var (io', ok) := KqueueAdd(io, fd, mask, refuseRead, refuseWrite);
            && (Synced(io', false) <==> !HalfDone(io, fd, mask, refuseRead, refuseWrite))
            && (ok <==> io.cache[fd] == mask
                        || ((mask.read ==> fd in io.open && !refuseRead)
                            && (mask.write ==> fd in io.open && !refuseWrite)))
            && (ok ==> Becomes(io, io', fd, mask))
            && (Synced(io', false) && !ok ==> io' == io)
  {
    assert SyncedAt(io, fd, false);
    var io' := KqueueAdd(io, fd, mask, refuseRead, refuseWrite).0;
    if HalfDone(io, fd, mask, refuseRead, refuseWrite) {
      assert !SyncedAt(io', fd, false);
    } else {
      SyncedElsewhere(io, io', fd, false);
    }
  }

  /** On an open descriptor without interest, both filters asked for and the second refused: the kernel has
      the read filter, and the cache has nothing. */
  lemma HalfDoneHappens()
    ensures var io := Io([NONE], map[], {0}); var both := Mask(true, true, false);
            && Synced(io, false) && HalfDone(io, 0, both, false, true)
            && var io' := KqueueAdd(io, 0, both, false, true).0;
               Registered(io', 0) == Mask(true, false, false) && io'.cache[0] == NONE && !Synced(io', false)
  {
    var io, both := Io([NONE], map[], {0}), Mask(true, true, false);
    assert Synced(io, false);
    KqueueRefines(io, 0, both, false, true);
  }

  /** sys_close keeps the cache right; a close around it does so exactly when the cached mask was empty. */
  lemma CloseKeeps(io: Io, fd: nat, entries: bool)
    requires Synced(io, entries)
    ensures Synced(Close(io, fd), entries)
    ensures fd < |io.cache| ==> (Synced(RawClose(io, fd), entries) <==> fd !in io.reg)
  {
    var c, r := Close(io, fd), RawClose(io, fd);
    if fd < |io.cache| {
      assert SyncedAt(io, fd, entries);
      SyncedElsewhere(io, c, fd, entries);
      if fd in io.reg {
        assert !SyncedAt(r, fd, entries);
      } else {
        SyncedElsewhere(io, r, fd, entries);
      }
    } else {
      assert c == io.(open := c.open);
      forall x: nat | x < |c.cache|
        ensures SyncedAt(c, x, entries)
      {
        assert SyncedAt(io, x, entries);
      }
    }
  }

  // ---------- runs ----------

  datatype Call =
    | AddEvent(fd: nat, mask: Mask)
    | DelEvent(fd: nat, delmask: Mask)
    | SysClose(fd: nat)
    | Open(fd: nat)

  /** A call, and whether the kernel refuses a change it makes. Descriptor numbers are reused freely. */
  function CallStep(io: Io, c: Call, epoll: bool, refused: bool): (r: (Io, bool))
  {
    match c
    case AddEvent(fd, mask) =>
      if fd >= |io.cache| then (io, false)
      else if epoll then EpollAdd(io, fd, mask, refused) else KqueueAdd(io, fd, mask, refused, refused)
    case DelEvent(fd, delmask) =>
      if fd >= |io.cache| then (io, false)
      else if epoll then EpollDel(io, fd, delmask, refused) else KqueueDel(io, fd, delmask, refused, refused)
    case SysClose(fd) => (Close(io, fd), true)
    case Open(fd) => (io.(open := io.open + {fd}), true)
  }

  function CallRun(io: Io, cs: seq<(Call, bool)>, epoll: bool): Io
    decreases |cs|
  {
    if cs == [] then io else CallRun(CallStep(io, cs[0].0, epoll, cs[0].1).0, cs[1..], epoll)
  }

  /** A descriptor outside the cache is refused; sys_close ends all interest in its number and the number is
      closed, until it is opened again, which changes nothing else. */
  lemma CallEffects(io: Io, c: Call, epoll: bool, refused: bool)
    ensures var (io', ok) := CallStep(io, c, epoll, refused);
            && (c.AddEvent? || c.DelEvent? ==> io'.open == io.open && (c.fd >= |io.cache| ==> !ok && io' == io))
            && (c.SysClose? ==>
                  && ok && c.fd !in io'.open && Registered(io', c.fd) == NONE
                  && (c.fd < |io.cache| ==> io'.cache == io.cache[c.fd := NONE])
                  && (forall x: nat :: x != c.fd ==>
                        (x in io'.open <==> x in io.open) && Registered(io', x) == Registered(io, x)))
            && (c.Open? ==> ok && io' == io.(open := io'.open) && io'.open == io.open + {c.fd})
  {
  }

  /** A mask the kernel does not know of any more heals with the deletion: the entry that is not there is no
      error, and the mask is empty afterwards. */
  lemma StaleMaskHeals(io: Io, fd: nat, delmask: Mask, refused: bool)
    requires fd < |io.cache| && fd in io.open && fd !in io.reg && Minus(io.cache[fd], delmask) == NONE
    ensures var (io', ok) := EpollDel(io, fd, delmask, refused);
            ok && io' == io.(cache := io.cache[fd := NONE])
  {
    assert io.cache[fd] == NONE ==> io.cache[fd := NONE] == io.cache;
  }

  lemma CallKeeps(io: Io, c: Call, epoll: bool, refused: bool)
    requires Synced(io, epoll) && (epoll || !refused)
    ensures Synced(CallStep(io, c, epoll, refused).0, epoll)
  {
    match c
    case AddEvent(fd, mask) =>
      if fd < |io.cache| {
        if epoll {
          EpollRefines(io, fd, mask, refused);
        } else {
          KqueueRefines(io, fd, mask, refused, refused);
        }
      }
    case DelEvent(fd, delmask) =>
      if fd < |io.cache| {
        if epoll {
          EpollRefines(io, fd, delmask, refused);
        } else {
          KqueueRefines(io, fd, Minus(io.cache[fd], delmask), refused, refused);
        }
      }
    case SysClose(fd) => CloseKeeps(io, fd, epoll);
    case Open(fd) =>
      var io' := io.(open := io.open + {fd});
      forall x: nat | x < |io'.cache|
        ensures SyncedAt(io', x, epoll)
      {
        assert SyncedAt(io, x, epoll);
      }
  }

  ghost predicate NoneRefused(cs: seq<(Call, bool)>)
  {
    forall i :: 0 <= i < |cs| ==> !cs[i].1
  }

  /** Over any sequence of calls, with descriptor numbers reused, the cached masks are the kernel's
      registrations: for epoll whatever the kernel refuses, for kqueue when it refuses nothing. */
  lemma {:induction false} CacheIsTheKernel(io: Io, cs: seq<(Call, bool)>, epoll: bool)
    requires Synced(io, epoll) && (epoll || NoneRefused(cs))
    ensures Synced(CallRun(io, cs, epoll), epoll)
    decreases |cs|
  {
    if cs != [] {
      CallKeeps(io, cs[0].0, epoll, cs[0].1);
      CacheIsTheKernel(CallStep(io, cs[0].0, epoll, cs[0].1).0, cs[1..], epoll);
    }
  }

  /** Same cache, same open descriptors: by Synced, the same interest in the kernel. */
  ghost predicate Agree(e: Io, k: Io)
  {
    && Synced(e, true) && Synced(k, false) && e.cache == k.cache && e.open == k.open
  }

  lemma AgreeMeansSameInterest(e: Io, k: Io, fd: nat)
    requires Agree(e, k)
    ensures Registered(e, fd) == Registered(k, fd)
  {
    if fd < |e.cache| {
      assert SyncedAt(e, fd, true) && SyncedAt(k, fd, false);
    }
  }

  /** The call is for an open descriptor, or needs none. */
  ghost predicate OnOpen(c: Call, open: set<nat>)
  {
    match c
    case AddEvent(fd, _) => fd in open
    case DelEvent(fd, _) => fd in open
    case _ => true
  }

  ghost predicate AllOnOpen(io: Io, cs: seq<(Call, bool)>)
    decreases |cs|
  {
    cs == [] || (OnOpen(cs[0].0, io.open) && AllOnOpen(CallStep(io, cs[0].0, true, false).0, cs[1..]))
  }

  /** The two backends are the same machine: started alike and refused nothing, every call on an open
      descriptor returns the same from both and leaves the same masks and the same interest. */
  lemma {:induction false} BackendsAgree(e: Io, k: Io, cs: seq<(Call, bool)>)
    requires Agree(e, k) && NoneRefused(cs) && AllOnOpen(e, cs)
    ensures Agree(CallRun(e, cs, true), CallRun(k, cs, false))
    ensures cs != [] ==> CallStep(e, cs[0].0, true, false).1 == CallStep(k, cs[0].0, false, false).1
    decreases |cs|
  {
    if cs != [] {
      assert !cs[0].1;
      CallAgrees(e, k, cs[0].0);
      BackendsAgree(CallStep(e, cs[0].0, true, false).0, CallStep(k, cs[0].0, false, false).0, cs[1..]);
    }
  }

  lemma CallAgrees(e: Io, k: Io, c: Call)
    requires Agree(e, k) && OnOpen(c, e.open)
    ensures Agree(CallStep(e, c, true, false).0, CallStep(k, c, false, false).0)
    ensures CallStep(e, c, true, false).1 == CallStep(k, c, false, false).1
  {
    CallKeeps(e, c, true, false);
    CallKeeps(k, c, false, false);
    match c
    case AddEvent(fd, mask) =>
      if fd < |e.cache| {
        EpollRefines(e, fd, mask, false);
        KqueueRefines(k, fd, mask, false, false);
      }
    case DelEvent(fd, delmask) =>
      if fd < |e.cache| {
        EpollRefines(e, fd, delmask, false);
        KqueueRefines(k, fd, Minus(k.cache[fd], delmask), false, false);
      }
    case SysClose(fd) =>
    case Open(fd) =>
  }
}
