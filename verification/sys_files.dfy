/** g_sys_fdlist of app/st_sys.cc and the functions that update its slots and the event table in place,
    each proved to be the operation of HookModel. */
module SysFiles {
  import opened Queues
  import opened PollModel
  import opened PollBackends
  import opened EventModel
  import opened EventSchedule
  import opened Coroutines
  import H = HookModel

  datatype SysFd = SysFd(inUse: bool, hookItem: StEventItem?)

  const UNUSED := SysFd(false, null)

  class SysFdList {
    const events: StEventSchedule
    const fds: array<SysFd>
    ghost var made: set<StEventItem>

    ghost function HookOf(fd: nat): Option<StEventItem>
      requires fd < fds.Length
      reads fds
    {
      if fds[fd].hookItem == null then None else var i: StEventItem := fds[fd].hookItem; Some(i)
    }

    ghost function Hooks(): map<nat, Option<StEventItem>>
      reads fds
    {
      map fd: nat | fd < fds.Length && fds[fd].inUse :: HookOf(fd)
    }

    ghost function View(): H.Files<StEventItem, StThreadItem>
      reads this, fds, events, events.slots, events.iostate.file, events.iostate.kernel
      reads events.items`fd, events.items`events, events.items`revents, events.items`owner
    {
      H.Files(events.View(), Hooks(), made)
    }

    ghost predicate Valid()
      reads this, fds, events, events.slots, events.iostate.file, events.iostate.kernel
      reads events.items`fd, events.items`events, events.items`revents, events.items`owner
    {
      events.Valid() && H.HookInv(View())
    }

    constructor (events: StEventSchedule, max: nat)
      requires events.Valid()
      ensures Valid() && fresh(fds) && this.events == events && fds.Length == max && made == {} && Hooks() == map[]
    {
      this.events := events;
      fds := new SysFd[max](i => UNUSED);
      made := {};
      new;
      assert Hooks() == map[];
    }

    /** sys_new_fd, for a number the kernel gave out. */
    method SysNewFd(fd: nat)
      requires Valid()
      modifies fds, events.iostate.kernel`open
      ensures fd < fds.Length ==> View() == H.SysNewFd(old(View()), fd)
    {
      if fd >= fds.Length {
        return;
      }
      fds[fd] := SysFd(true, null);
      events.iostate.kernel.open := events.iostate.kernel.open + {fd};
      assert Hooks() == old(Hooks())[fd := None];
    }

    /** The slot part of sys_shutdown. */
    method SysShutdown(fd: nat)
      requires Valid()
      modifies fds
      ensures View() == H.SysShutdown(old(View()), fd)
    {
      if fd < fds.Length && fds[fd].inUse {
        fds[fd] := UNUSED;
      }
      assert Hooks() == old(Hooks()) - {fd};
    }

    /** What the model says of a slot in use. */
    lemma Sees(fd: nat)
      requires Valid() && fd < fds.Length && fds[fd].inUse
      ensures H.Hook(View(), fd) == HookOf(fd) && H.HookInv(View()) && events.Valid() && View().ev == events.View()
      ensures HookOf(fd).Some? ==> HookOf(fd).value in events.items
      ensures HookOf(fd).Some? ==>
                 (H.HoldsSlot(View(), fd) <==> fd < events.slots.Length && events.slots[fd] == fds[fd].hookItem)
    {
      assert View().hooks[fd] == HookOf(fd);
      hide TableInv;
    }

    /** An item that goes back to its pool. */
    twostate lemma ItemFreed(item: StEventItem)
      requires events.items == old(events.items) - {item} && events.slots[..] == old(events.slots[..])
      requires events.iostate.View() == old(events.iostate.View())
      requires forall i :: i in old(events.items) ==> i.Value() == old(i.Value())
      ensures events.View() == H.Freed(old(events.View()), item)
    {
      assert events.Values() == old(events.Values()) - {item};
      assert events.Table() == old(events.Table());
    }

    /** FreePtr of the item, which nobody holds. */
    method FreeItem(item: StEventItem)
      modifies events`items
      ensures events.View() == H.Freed(old(events.View()), item) && events.items == old(events.items) - {item}
    {
      hide *;
      events.items := events.items - {item};
      ItemFreed(item);
    }

    method SetSlot(fd: nat, slot: SysFd)
      requires fd < fds.Length
      modifies fds
      ensures fds[..] == old(fds[..])[fd := slot]
      ensures Hooks() == if slot.inUse then old(Hooks())[fd := HookOf(fd)] else old(Hooks()) - {fd}
    {
      fds[fd] := slot;
    }

    /** hook_release_item. */
    method HookReleaseItem(fd: nat)
      requires Valid() && fd < fds.Length && fds[fd].inUse
      modifies this`made, fds, events`items, events.slots, events.iostate.file, events.iostate.kernel`reg
      ensures View() == H.HookRelease(old(View()), fd)
    {
      hide H.HookInv, TableInv, events.View, EventModel.ClearItem;
      Sees(fd);
      var item := fds[fd].hookItem;
      if item == null {
        return;
      }
      var bound := events.GetEventItem(fd);
      if bound == item {
        events.ClearItem(item);
      }
      FreeItem(item);
      made := made - {item};
      SetSlot(fd, SysFd(true, null));
    }
  
    /** sys_close: the hook's item first, then the slot, then the cached mask, then the descriptor. */
    method SysClose(fd: nat)
      requires Valid()
      modifies this`made, fds, events`items, events.slots, events.iostate.file, events.iostate.kernel
      ensures View() == H.SysClose(old(View()), fd)
    {
      hide H.HookInv, H.HookRelease, TableInv, Close, View;
      ValidIs();
      NotInUse(fd);
      if fd < fds.Length && fds[fd].inUse {
        HookReleaseItem(fd);
      }
      FreeAndClose(fd);
    }

    /** sys_free_fd and the closing of the descriptor. */
    method FreeAndClose(fd: nat)
      modifies fds, events.iostate.file, events.iostate.kernel
      ensures var f := old(View()); View() == H.Files(f.ev.(io := Close(f.ev.io, fd)), f.hooks - {fd}, f.made)
    {
      hide TableInv, Close;
      NotInUse(fd);
      if fd < fds.Length && fds[fd].inUse {
        SetSlot(fd, UNUSED);
      }
      events.iostate.SysClose(fd);
    }

    lemma ValidIs()
      requires Valid()
      ensures H.HookInv(View()) && events.Valid()
    {
    }

    lemma NotInUse(fd: nat)
      ensures fd in View().hooks <==> fd < fds.Length && fds[fd].inUse
      ensures fd !in View().hooks ==> Hooks() - {fd} == Hooks()
    {
    }

    lemma SlotOf(fd: nat)
      ensures fd in View().ev.table <==> fd < events.slots.Length && events.slots[fd] != null
      ensures events.View().items.Keys == events.items
    {
    }

    /** An item the pool gave out. */
    twostate lemma ItemMade(new item: StEventItem)
      requires item !in old(events.items) && events.items == old(events.items) + {item}
      requires events.slots[..] == old(events.slots[..]) && events.iostate.View() == old(events.iostate.View())
      requires item.Value() == Item(item.fd, NONE, NONE, None)
      requires forall i :: i in old(events.items) ==> i.Value() == old(i.Value())
      ensures events.View() == H.Allocated(old(events.View()), item.fd, item)
    {
      assert events.Values() == old(events.Values())[item := Item(item.fd, NONE, NONE, None)];
      assert events.Table() == old(events.Table());
    }

    /** SetOsfd, DisableInput and DisableOutput of an item from AllocPtr. */
    method PrepareItem(item: StEventItem, fd: int)
      requires item !in events.items && item.revents == NONE && item.owner == null && !item.events.err
      modifies item`fd, item`events, events`items
      ensures events.View() == H.Allocated(old(events.View()), fd, item) && events.items == old(events.items) + {item}
    {
      hide *;
      item.fd := fd;
      item.events := item.events.(read := false);
      item.events := item.events.(write := false);
      events.items := events.items + {item};
      ItemIsBlank(item);
      ItemMade(item);
    }

    lemma ItemIsBlank(item: StEventItem)
      requires item.events == Mask(false, false, false) && item.revents == NONE && item.owner == null
      ensures item.Value() == Item(item.fd, NONE, NONE, None)
    {
    }

    /** hook_ensure_item; item is what AllocPtr would give, `refused` the kernel's choice. */
    method HookEnsureItem(fd: nat, item: StEventItem, refused: bool)
      requires Valid()
      requires item !in events.items && item.revents == NONE && item.owner == null && !item.events.err
      modifies this`made, fds, item`fd, item`events
      modifies events`items, events.slots, events.iostate.file, events.iostate.kernel`reg
      ensures View() == H.HookEnsure(old(View()), fd, item, refused)
    {
      hide H.HookInv, TableInv, events.View, AddItem;
      ValidIs();
      NotInUse(fd);
      if fd >= fds.Length || !fds[fd].inUse {
        return;
      }
      var bound := events.GetEventItem(fd);
      SlotOf(fd);
      events.Fixed();
      if bound != null {
        return;
      }
      ghost var v := events.View();
      H.WithItem(v, fd, item);
      PrepareItem(item, fd);
      assert events.slots as object != events.iostate.file;
      events.ValidIs();
      var ok := events.Add(item, refused);
      if !ok {
        FreeItem(item);
        return;
      }
      SetSlot(fd, SysFd(true, item));
      made := made + {item};
    }
  }
}
