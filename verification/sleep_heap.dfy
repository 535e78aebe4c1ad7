/** The coroutine objects of src/st_poll.h: StThreadItem with the base StHeap. */
module Coroutines {
  import opened Queues
  import opened SchedModel

  class StThreadItem {
    var heapIndex: int            // m_index_, 0 outside the sleep heap
    var wakeupTime: int
    var ioFlag: bool              // the bits of m_flag_
    var sleepFlag: bool
    var runFlag: bool
    var pendFlag: bool
    var subFlag: bool
    var link: Link                // m_next_.parent and remove_tag
    var notified: bool
    var kind: Kind
    var parent: StThreadItem?
    var subs: seq<StThreadItem>   // m_sub_threadlist_

    constructor ()
      ensures heapIndex == 0 && wakeupTime == 0 && link == Unlinked && !notified && kind == Normal
      ensures !ioFlag && !sleepFlag && !runFlag && !pendFlag && !subFlag && parent == null && subs == []
    {
      heapIndex, wakeupTime, link, notified, kind := 0, 0, Unlinked, false, Normal;
      ioFlag, sleepFlag, runFlag, pendFlag, subFlag := false, false, false, false, false;
      parent, subs := null, [];
    }

    /** The object as the model sees it. */
    function Record(): Rec<StThreadItem>
      reads `ioFlag, `sleepFlag, `runFlag, `pendFlag, `subFlag, `link, `wakeupTime, `notified, `kind, `parent, `subs
    {
      Rec(ioFlag, sleepFlag, runFlag, pendFlag, subFlag, link, wakeupTime, notified, kind, Parent(), subs)
    }

    function Parent(): Option<StThreadItem>
      reads `parent
    {
      if parent == null then None else var p: StThreadItem := parent; Some(p)
    }
  }
}

/** StHeapList of stlib/st_heap.h: the sleep heap in its array, with back indices in the elements. */
module SleepHeap {
  import opened HeapModel
  import opened Queues
  import opened SchedModel
  import opened Coroutines

  function NodesOf(q: seq<StThreadItem>): (r: seq<Node<StThreadItem>>)
    reads q`wakeupTime
    ensures |r| == |q| && forall i :: 0 <= i < |q| ==> r[i] == Node(q[i], q[i].wakeupTime)
  {
    if q == [] then [] else [Node(q[0], q[0].wakeupTime)] + NodesOf(q[1..])
  }

  ghost predicate Covers<T>(m: set<T>, q: seq<T>)
  {
    forall x :: x in m ==> x in q
  }

  lemma SwapCovers<T>(m: set<T>, q: seq<T>, i: nat, j: nat)
    requires Covers(m, q) && 1 <= i <= |q| && 1 <= j <= |q|
    ensures Covers(m, q[i - 1 := q[j - 1]][j - 1 := q[i - 1]])
  {
    var r := q[i - 1 := q[j - 1]][j - 1 := q[i - 1]];
    forall x | x in m
      ensures x in r
    {
      var k :| 0 <= k < |q| && q[k] == x;
      assert r[if k == i - 1 then j - 1 else if k == j - 1 then i - 1 else k] == x;
    }
  }

  lemma AppendCovers<T>(m: set<T>, q: seq<T>, t: T)
    requires Covers(m, q)
    ensures Covers(m + {t}, q + [t])
  {
    assert (q + [t])[|q|] == t;
    assert forall x :: x in q ==> x in q + [t];
  }

  lemma MoveLastCovers<T>(m: set<T>, q: seq<T>, pos: nat)
    requires Covers(m, q) && 1 <= pos <= |q|
    ensures Covers(m - {q[pos - 1]}, q[pos - 1 := q[|q| - 1]][..|q| - 1])
  {
    var r := q[pos - 1 := q[|q| - 1]][..|q| - 1];
    forall x | x in m && x != q[pos - 1]
      ensures x in r
    {
      var k :| 0 <= k < |q| && q[k] == x;
      assert r[if k < |q| - 1 then k else pos - 1] == x;
    }
  }

  class HeapList {
    var list: array<StThreadItem?>        // slot 0 is not used
    var max: nat
    var count: nat
    ghost var items: seq<StThreadItem>    // slots 1 to count
    ghost var members: set<StThreadItem>

    /** Slot i holds the element whose index is i. */
    ghost predicate Valid()
      reads this, list, members`heapIndex
    {
      && list.Length == max + 1
      && count == |items| <= max
      && Covers(members, items)
      && (forall j {:trigger items[j]} :: 0 <= j < count ==>
           items[j] in members && list[j + 1] == items[j] && items[j].heapIndex == j + 1)
    }

    /** The heap on values. */
    ghost function Nodes(): (h: seq<Node<StThreadItem>>)
      reads this, items`wakeupTime
      ensures |h| == |items| && forall i :: 0 <= i < |h| ==> h[i] == Node(items[i], items[i].wakeupTime)
    {
      NodesOf(items)
    }

    /** The index of x is 0 exactly when x is not in this heap. */
    ghost predicate Indexed(x: StThreadItem)
      reads this, x`heapIndex
    {
      x.heapIndex == 0 <==> x !in members
    }

    lemma MembersIndexed()
      requires Valid()
      ensures forall x :: x in members ==> x.heapIndex != 0
    {
    }

    /** Slot i, for proofs that hide Valid. */
    lemma Slot(i: nat)
      requires Valid() && 1 <= i <= count
      ensures i < list.Length && list[i] == items[i - 1] && items[i - 1] in members
      ensures count == |items|
      ensures Nodes()[i - 1] == Node(items[i - 1], items[i - 1].wakeupTime)
    {
    }

    lemma Place(x: StThreadItem)
      requires Valid() && Indexed(x)
      ensures if x in members then 1 <= x.heapIndex <= count == |items| && items[x.heapIndex - 1] == x
              else x.heapIndex == 0
    {
    }

    constructor (max: int)
      ensures Valid() && items == [] && members == {} && fresh(list)
      ensures this.max == if max < 512 then 512 else max
    {
      this.max := if max < 512 then 512 else max;
      list := new StThreadItem?[(if max < 512 then 512 else max) + 1](i => null);
      count, items, members := 0, [], {};
    }

    method HeapResize(size: nat) returns (rc: int)
      requires Valid()
      modifies this`list, this`max
      ensures Valid() && items == old(items) && (list == old(list) || fresh(list))
      ensures rc == 0 && max == if old(max) >= size then old(max) else size
    {
      rc := 0;
      if max < size {
        var from := list;
        var grown := new StThreadItem?[size + 1](i => null);
        forall i | 0 <= i <= max {
          grown[i] := from[i];
        }
        list, max := grown, size;
      }
    }

    method Swap(i: nat, j: nat)
      requires Valid() && 1 <= i <= count && 1 <= j <= count
      modifies list, this`items, members`heapIndex
      ensures Valid() && Nodes() == HeapModel.Swap(old(Nodes()), i, j)
    {
      hide NodesOf, Covers;
      Slot(i);
      Slot(j);
      var a: StThreadItem, b: StThreadItem := list[i], list[j];
      list[i] := b;
      list[j] := a;
      items := items[i - 1 := b][j - 1 := a];
      assert Nodes() == HeapModel.Swap(old(Nodes()), i, j);
      b.heapIndex := i;
      a.heapIndex := j;
      SwapCovers(members, old(items), i, j);
    }

    method SiftUp(start: nat)
      requires Valid() && 1 <= start <= count
      modifies list, this`items, members`heapIndex
      ensures Valid() && Nodes() == HeapModel.SiftUp(old(Nodes()), start)
    {
      Slot(start);
      hide NodesOf, Valid;
      var pos := start;
      while pos > 1
        invariant 1 <= pos <= count == |items| && Valid()
        invariant HeapModel.SiftUp(Nodes(), pos) == HeapModel.SiftUp(old(Nodes()), start)
        decreases pos
      {
        var parent := pos / 2;
        Slot(pos);
        Slot(parent);
        if list[pos].wakeupTime >= list[parent].wakeupTime {
          return;
        }
        Swap(pos, parent);
        pos := parent;
      }
    }

    method SiftDown(start: nat)
      requires Valid() && 1 <= start <= count
      modifies list, this`items, members`heapIndex
      ensures Valid() && Nodes() == HeapModel.SiftDown(old(Nodes()), start)
    {
      hide NodesOf, Valid;
      Slot(start);
      var pos := start;
      while true
        invariant 1 <= pos <= count == |items| && Valid()
        invariant HeapModel.SiftDown(Nodes(), pos) == HeapModel.SiftDown(old(Nodes()), start)
        decreases count - pos
      {
        var lchild, rchild, best := 2 * pos, 2 * pos + 1, pos;
        Slot(pos);
        if lchild <= count {
          Slot(lchild);
        }
        if rchild <= count {
          Slot(rchild);
        }
        if lchild <= count && list[lchild].wakeupTime < list[best].wakeupTime {
          best := lchild;
        }
        if rchild <= count && list[rchild].wakeupTime < list[best].wakeupTime {
          best := rchild;
        }
        assert best == BestChild(Nodes(), pos);
        if best == pos {
          return;
        }
        Swap(pos, best);
        pos := best;
      }
    }

    /** 0, or -1 when the heap is full, or -2 when the entry is in a heap already. */
    method HeapPush(entry: StThreadItem) returns (rc: int)
      requires Valid() && Indexed(entry)
      modifies this, list, members`heapIndex, entry`heapIndex
      ensures Valid() && list == old(list) && max == old(max)
      ensures rc == if old(count) >= max then -1 else if old(entry.heapIndex) != 0 then -2 else 0
      ensures rc != 0 ==> items == old(items) && Nodes() == old(Nodes()) && entry.heapIndex == old(entry.heapIndex)
      ensures rc == 0 ==> Nodes() == Push(old(Nodes()), Node(entry, entry.wakeupTime))
      ensures members == if rc == 0 then old(members) + {entry} else old(members)
    {
      if count >= max {
        return -1;
      }
      if entry.heapIndex != 0 {
        return -2;
      }
      Place(entry);
      hide NodesOf, Valid;
      AppendLast(entry);
      SiftUp(count);
      return 0;
    }

    /** The entry is put in the slot behind the last. */
    method AppendLast(entry: StThreadItem)
      requires Valid() && entry !in members && count < max
      modifies this, list, entry`heapIndex
      ensures Valid() && list == old(list) && max == old(max) && count == old(count) + 1
      ensures Nodes() == old(Nodes()) + [Node(entry, entry.wakeupTime)] && members == old(members) + {entry}
    {
      hide NodesOf, Covers;
      AppendCovers(members, items, entry);
      count := count + 1;
      list[count] := entry;
      entry.heapIndex := count;
      items, members := items + [entry], members + {entry};
    }

    /** The last slot is cleared and its element leaves. */
    method DropLast(ptr: StThreadItem)
      requires Valid() && count > 0 && list[count] == ptr
      modifies this, list, ptr`heapIndex
      ensures Valid() && list == old(list) && max == old(max)
      ensures Nodes() == old(Nodes()[..|items| - 1])
      ensures ptr.heapIndex == 0 && members == old(members) - {ptr}
    {
      hide NodesOf, Covers;
      Slot(count);
      MoveLastCovers(members, items, count);
      assert items[count - 1 := items[count - 1]][..count - 1] == items[..count - 1];
      list[count] := null;
      count := count - 1;
      ptr.heapIndex := 0;
      items, members := items[..count], members - {ptr};
    }

    /** The last element moves into slot pos, whose element leaves. */
    method FillWithLast(pos: nat, ptr: StThreadItem)
      requires Valid() && 1 <= pos < count && list[pos] == ptr
      modifies this, list, members`heapIndex
      ensures Valid() && list == old(list) && max == old(max)
      ensures Nodes() == MoveLast(old(Nodes()), pos)
      ensures ptr.heapIndex == 0 && members == old(members) - {ptr}
    {
      hide NodesOf, Covers;
      Slot(pos);
      Slot(count);
      MoveLastCovers(members, items, pos);
      var last: StThreadItem := list[count];
      list[pos] := last;
      last.heapIndex := pos;
      list[count] := null;
      count := count - 1;
      ptr.heapIndex := 0;
      items, members := items[pos - 1 := last][..count], members - {ptr};
    }

    /** The top leaves the heap; null when it is empty. */
    method HeapPop() returns (top: StThreadItem?)
      requires Valid()
      modifies this, list, members`heapIndex
      ensures Valid() && list == old(list) && max == old(max)
      ensures top == null <==> old(items) == []
      ensures top == null ==> items == []
      ensures top != null ==>
                && top == old(items)[0] && top.heapIndex == 0 && members == old(members) - {top}
                && Nodes() == Pop(old(Nodes()))
    {
      if count == 0 {
        assert items == [];
        return null;
      }
      Slot(1);
      hide NodesOf, Valid;
      top := list[1];
      Swap(1, count);
      Slot(count);
      DropLast(top);
      if count > 0 {
        SiftDown(1);
      }
      return top;
    }

    /** The element just put at pos goes up or down. */
    method Settle(pos: nat)
      requires Valid() && 1 <= pos <= count
      modifies list, this`items, members`heapIndex
      ensures Valid()
      ensures var g := old(Nodes());
              Nodes() == if pos > 1 && g[pos - 1].key < g[pos / 2 - 1].key then HeapModel.SiftUp(g, pos)
                         else HeapModel.SiftDown(g, pos)
    {
      Slot(pos);
      if pos > 1 {
        Slot(pos / 2);
      }
      hide NodesOf, Valid;
      if pos > 1 && list[pos].wakeupTime < list[pos / 2].wakeupTime {
        SiftUp(pos);
      } else {
        SiftDown(pos);
      }
    }

    /** 0, or -1 when the heap is empty, or -2 when the entry is not in it. */
    method HeapDelete(entry: StThreadItem) returns (rc: int)
      requires Valid() && Indexed(entry)
      modifies this, list, members`heapIndex
      ensures Valid() && list == old(list) && max == old(max)
      ensures rc == if old(items) == [] then -1 else if entry !in old(members) then -2 else 0
      ensures rc != 0 ==> items == old(items) && members == old(members) && Nodes() == old(Nodes())
      ensures rc == 0 ==>
                && entry.heapIndex == 0 && members == old(members) - {entry}
                && Nodes() == DeleteAt(old(Nodes()), old(entry.heapIndex))
    {
      Place(entry);
      if count == 0 {
        return -1;
      }
      hide NodesOf, Valid;
      var pos := entry.heapIndex;
      if pos > count || pos <= 0 {
        return -2;
      }
      Slot(pos);
      var ptr := list[pos];
      if pos == count {
        DropLast(ptr);
        return 0;
      }
      FillWithLast(pos, ptr);
      Settle(pos);
      return 0;
    }

    method HeapTop() returns (top: StThreadItem?)
      requires Valid()
      ensures top == if items == [] then null else items[0]
    {
      if count > 0 {
        top := list[1];
      } else {
        top := null;
      }
    }

    /** The index kept in an element is the place the model finds for it. */
    lemma IndexIsPlace(x: StThreadItem)
      requires Valid() && Indexed(x)
      ensures IndexOf(Nodes(), x) == x.heapIndex
    {
      var pos := IndexOf(Nodes(), x);
      if pos == 0 {
        assert forall i :: 0 <= i < |items| ==> Nodes()[i].item == items[i];
      }
    }
  }
}
