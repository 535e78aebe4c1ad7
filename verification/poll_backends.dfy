/** StIOState of stlib/st_epoll.h and stlib/st_kqueue.h, each with its array of cached masks and the
    kernel tables it drives. `refused` is the kernel's own choice to fail a change. */
module PollBackends {
  import opened PollModel

  /** The kernel's side: open descriptors and what is registered for them. */
  class Kernel {
    var reg: map<nat, Mask>
    var open: set<nat>

    ghost function On(cache: seq<Mask>): Io
      reads this
    {
      Io(cache, reg, open)
    }

    method EpollCtl(op: Op, fd: nat, events: Mask, refused: bool) returns (e: Errno)
      modifies `reg
      ensures forall cache :: (On(cache), e) == Ctl(old(On(cache)), op, fd, events, refused)
    {
      if fd !in open {
        return BadFd;
      }
      if op == CtlAdd && fd in reg {
        return Exists;
      }
      if op != CtlAdd && fd !in reg {
        return NoEntry;
      }
      if refused {
        return Refused;
      }
      reg := if op == CtlDel then reg - {fd} else reg[fd := events];
      return Ok;
    }

    method KeventChange(fd: nat, write: bool, add: bool, refused: bool) returns (e: Errno)
      modifies `reg
      ensures forall cache :: (On(cache), e) == Kevent(old(On(cache)), fd, write, add, refused)
    {
      if fd !in open {
        return BadFd;
      }
      if add && refused {
        return Refused;
      }
      var m := if fd in reg then reg[fd] else NONE;
      if !add && !(if write then m.write else m.read) {
        return NoEntry;
      }
      var m1 := if write then m.(write := add) else m.(read := add);
      reg := if m1 == NONE then reg - {fd} else reg[fd := m1];
      return Ok;
    }

    /** The descriptor and its registration disappear. */
    method CloseFd(fd: nat)
      modifies this
      ensures reg == old(reg) - {fd} && open == old(open) - {fd}
    {
      reg, open := reg - {fd}, open - {fd};
    }
  }

  class EpollState {
    const file: array<Mask>
    const kernel: Kernel

    constructor (size: nat, kernel: Kernel)
      requires kernel.reg == map[]
      ensures file.Length == size && fresh(file) && this.kernel == kernel && Synced(View(), true)
    {
      file := new Mask[size](i => NONE);
      this.kernel := kernel;
    }

    ghost function View(): Io
      reads file, kernel
    {
      kernel.On(file[..])
    }

    method AddEvent(fd: nat, mask: Mask, refused: bool) returns (rc: int)
      requires fd < file.Length
      modifies file, kernel`reg
      ensures View() == EpollAdd(old(View()), fd, mask, refused).0
      ensures rc == if EpollAdd(old(View()), fd, mask, refused).1 then 0 else -1
    {
      if file[fd] == mask {
        return 0;
      }
      if mask == NONE {
        rc := DelEvent(fd, file[fd], refused);
        return;
      }
      var op := if file[fd] == NONE then CtlAdd else CtlMod;
      var e := kernel.EpollCtl(op, fd, Interest(mask), refused);
      if e != Ok {
        return -1;
      }
      file[fd] := mask;
      return 0;
    }

    method DelEvent(fd: nat, delmask: Mask, refused: bool) returns (rc: int)
      requires fd < file.Length
      modifies file, kernel`reg
      ensures View() == EpollDel(old(View()), fd, delmask, refused).0
      ensures rc == if EpollDel(old(View()), fd, delmask, refused).1 then 0 else -1
    {
      var cur := file[fd];
      if cur == NONE {
        return 0;
      }
      var mask := Minus(cur, delmask);
      if mask == cur {
        return 0;
      }
      if mask != NONE {
        var e := kernel.EpollCtl(CtlMod, fd, Interest(mask), refused);
        if e != Ok {
          return -1;
        }
      } else {
        var e := kernel.EpollCtl(CtlDel, fd, Interest(mask), refused);
        if e != Ok {
          if e == NoEntry {
            file[fd] := NONE;
            return 0;
          }
          return -1;
        }
      }
      file[fd] := mask;
      return 0;
    }

    method ClearFd(fd: int)
      modifies file
      ensures file[..] == if 0 <= fd < file.Length then old(file[..])[fd := NONE] else old(file[..])
    {
      if fd < 0 || fd >= file.Length {
        return;
      }
      file[fd] := NONE;
    }

    /** sys_close: the cache first, then the kernel. */
    method SysClose(fd: nat)
      modifies file, kernel
      ensures View() == Close(old(View()), fd)
    {
      ClearFd(fd);
      kernel.CloseFd(fd);
    }
  }

  class KqueueState {
    const file: array<Mask>
    const kernel: Kernel

    constructor (size: nat, kernel: Kernel)
      requires kernel.reg == map[]
      ensures file.Length == size && fresh(file) && this.kernel == kernel && Synced(View(), false)
    {
      file := new Mask[size](i => NONE);
      this.kernel := kernel;
    }

    ghost function View(): Io
      reads file, kernel
    {
      kernel.On(file[..])
    }

    method AddEvent(fd: nat, mask: Mask, refuseRead: bool, refuseWrite: bool) returns (rc: int)
      requires fd < file.Length
      modifies file, kernel`reg
      ensures View() == KqueueAdd(old(View()), fd, mask, refuseRead, refuseWrite).0
      ensures rc == if KqueueAdd(old(View()), fd, mask, refuseRead, refuseWrite).1 then 0 else -1
    {
      if file[fd] == mask {
        return 0;
      }
      var e: Errno;
      if mask.read {
        e := kernel.KeventChange(fd, false, true, refuseRead);
        if e != Ok {
          return -1;
        }
      } else {
        e := kernel.KeventChange(fd, false, false, refuseRead);
      }
      if mask.write {
        e := kernel.KeventChange(fd, true, true, refuseWrite);
        if e != Ok {
          return -1;
        }
      } else {
        e := kernel.KeventChange(fd, true, false, refuseWrite);
      }
      file[fd] := mask;
      return 0;
    }

    method DelEvent(fd: nat, delmask: Mask, refuseRead: bool, refuseWrite: bool) returns (rc: int)
      requires fd < file.Length
      modifies file, kernel`reg
      ensures View() == KqueueDel(old(View()), fd, delmask, refuseRead, refuseWrite).0
      ensures rc == if KqueueDel(old(View()), fd, delmask, refuseRead, refuseWrite).1 then 0 else -1
    {
      rc := AddEvent(fd, Minus(file[fd], delmask), refuseRead, refuseWrite);
    }

    method ClearFd(fd: int)
      modifies file
      ensures file[..] == if 0 <= fd < file.Length then old(file[..])[fd := NONE] else old(file[..])
    {
      if fd < 0 || fd >= file.Length {
        return;
      }
      file[fd] := NONE;
    }
  }
}
