/** The intrusive queue of stlib/st_tailq.h with its pointers: each macro is proved to do to the linked
    elements what the schedulers' queues do to their sequences. */
module TailQ {
  import opened Queues

  /** What a pointer to a pointer of the queue points to: nothing, the first field of a head, or the
      next field of an element. */
  datatype Slot = Nowhere | FirstOf(head: Head) | NextOf(elm: Entry)

  /** CPP_TAILQ_ENTRY. */
  class Entry {
    var next: Entry?
    var prev: Slot
    var parent: Head?
    var removeTag: bool

    constructor ()
      ensures next == null && prev == Nowhere && parent == null && removeTag
    {
      next, prev, parent, removeTag := null, Nowhere, null, true;
    }
  }

  /** The element at i, or none behind the last. */
  function At(q: seq<Entry>, i: nat): Entry?
  {
    if i < |q| then q[i] else null
  }

  /** The slot in front of the element at i, or behind the last. */
  function Before(h: Head, q: seq<Entry>, i: nat): Slot
    requires i <= |q|
  {
    if i == 0 then FirstOf(h) else NextOf(q[i - 1])
  }

  lemma WithoutOne(h: Head, q: seq<Entry>, p: nat, j: nat)
    requires p < |q| && j <= |q| - 1
    ensures var d := q[..p] + q[p + 1..];
            var m := if j < p then j else j + 1;
            && At(d, j) == At(q, m) && |d| == |q| - 1
            && Before(h, d, j) == (if j <= p then Before(h, q, j) else Before(h, q, j + 1))
            && (j < |d| ==> d[j] == q[m])
  {
  }

  lemma WithOneMore(h: Head, q: seq<Entry>, e: Entry, j: nat)
    requires j <= |q| + 1
    ensures At(q + [e], j) == if j == |q| then e else At(q, j)
    ensures Before(h, q + [e], j) == if j == |q| + 1 then NextOf(e) else Before(h, q, j)
    ensures j < |q| ==> (q + [e])[j] == q[j]
  {
  }

  /** The element at p and the ones beside it are no others. */
  lemma Neighbours<T>(q: seq<T>, p: nat)
    requires NoDup(q) && p < |q|
    ensures forall i :: 0 <= i < |q| && i != p ==> q[i] != q[p]
    ensures p > 0 ==> forall i :: 0 <= i < |q| && i + 1 != p ==> q[i] != q[p - 1]
    ensures p + 1 < |q| ==> forall i :: 0 <= i < |q| && i != p + 1 ==> q[i] != q[p + 1]
  {
  }

  function Last(q: seq<Entry>): set<Entry>
  {
    if q == [] then {} else {q[|q| - 1]}
  }

  /** CPP_TAILQ_HEAD. */
  class Head {
    var first: Entry?
    var last: Slot
    var size: nat
    ghost var items: seq<Entry>

    /** The element at i is linked between its neighbours and names this queue. */
    ghost predicate LinkedAt(i: nat)
      requires i < |items|
      reads `items, items
    {
      var e := items[i];
      e.next == At(items, i + 1) && e.prev == Before(this, items, i) && e.parent == this && !e.removeTag
    }

    ghost predicate Ends()
      reads this
    {
      NoDup(items) && size == |items| && first == At(items, 0) && last == Before(this, items, |items|)
    }

    ghost predicate Valid()
      reads this, items
    {
      Ends() && forall i :: 0 <= i < |items| ==> LinkedAt(i)
    }

    constructor ()
      ensures Valid() && items == []
    {
      first, size, items := null, 0, [];
      last := Nowhere;
      new;
      last := FirstOf(this);
    }

    lemma Knows(i: nat)
      requires Valid() && i < |items|
      ensures Ends() && LinkedAt(i) && items[i] in items && Place(items, items[i]) == i
    {
      PlaceIs(items, i);
    }

    /** What CPP_TAILQ_REMOVE writes for the element at p of the old queue. */
    twostate predicate Bridged(p: nat)
      requires p < |old(items)|
      reads *
    {
      var was := old(items);
      && items == was[..p] + was[p + 1..] && size == old(size) - 1
      && first == (if p == 0 then At(was, 1) else old(first))
      && last == (if p == |was| - 1 then Before(this, was, p) else old(last))
      && (p > 0 ==> was[p - 1].next == At(was, p + 1))
      && (p + 1 < |was| ==> was[p + 1].prev == Before(this, was, p))
      && (forall i :: 0 <= i < |was| && i != p ==>
            && (i + 1 != p ==> was[i].next == old(was[i].next)) && (i != p + 1 ==> was[i].prev == old(was[i].prev))
            && was[i].parent == old(was[i].parent) && was[i].removeTag == old(was[i].removeTag))
    }

    twostate lemma BridgedLinks(p: nat)
      requires old(Valid()) && p < |old(items)| && Bridged(p)
      ensures forall j :: 0 <= j < |items| ==> LinkedAt(j)
    {
      hide At, Before, Ends, NoDup;
      var was := old(items);
      forall j | 0 <= j < |items|
        ensures LinkedAt(j)
      {
        var m := if j < p then j else j + 1;
        WithoutOne(this, was, p, j);
        WithoutOne(this, was, p, j + 1);
        assert old(LinkedAt(m));
      }
    }

    twostate lemma BridgedEnds(p: nat)
      requires old(Valid()) && p < |old(items)| && Bridged(p)
      ensures Ends() && items == Drop(old(items), old(items)[p])
    {
      hide At, Before, Drop;
      var was := old(items);
      DropAt(was, p);
      DropKeepsTheRest(was, was[p]);
      WithoutOne(this, was, p, 0);
      WithoutOne(this, was, p, |was| - 1);
    }
  
    /** CPP_TAILQ_REMOVE: nothing for an unlinked element. The macro does not look at parent, so an element
        linked elsewhere must not be given. */
    method Remove(elm: Entry)
      requires Valid() && (elm.removeTag || elm in items)
      modifies this, items, elm
      ensures Valid() && items == Drop(old(items), elm)
      ensures elm.removeTag && elm !in items
      ensures if old(elm.removeTag) then elm.parent == old(elm.parent) else elm.parent == null
    {
      if elm.removeTag {
        NotHere(elm);
        return;
      }
      RemoveAt(elm);
      RemovedIsOut(elm, old(items));
    }

    lemma NotHere(elm: Entry)
      requires Valid() && elm.removeTag
      ensures elm !in items
    {
      forall i | 0 <= i < |items|
        ensures items[i] != elm
      {
        assert LinkedAt(i);
      }
    }

    lemma RemovedIsOut(elm: Entry, was: seq<Entry>)
      requires NoDup(was) && items == Drop(was, elm)
      ensures elm !in items
    {
      DropKeepsTheRest(was, elm);
    }

    /** The pointer writes of CPP_TAILQ_REMOVE for an element of the queue. */
    method RemoveAt(elm: Entry)
      requires Valid() && elm in items
      modifies this, items, elm
      ensures Valid() && NoDup(old(items)) && items == Drop(old(items), elm)
      ensures elm.removeTag && elm.parent == null
    {
      hide At, Before, Drop, NoDup;
      ghost var p := Place(items, elm);
      Knows(p);
      Neighbours(items, p);
      if p > 0 {
        Knows(p - 1);
      }
      if p + 1 < |items| {
        Knows(p + 1);
      }
      EndOf(p);
      if elm.next != null {
        elm.next.prev := elm.prev;
      } else {
        last := elm.prev;
      }
      if size > 0 {
        size := size - 1;
      }
      elm.removeTag := true;
      elm.parent := null;
      match elm.prev {
        case FirstOf(h) => h.first := elm.next;
        case NextOf(e) => e.next := elm.next;
        case Nowhere =>
      }
      items := items[..p] + items[p + 1..];
      BridgedLinks(p);
      BridgedEnds(p);
    }

    lemma EndOf(p: nat)
      requires p < |items|
      ensures At(items, p + 1) == null <==> p == |items| - 1
      ensures p + 1 < |items| ==> At(items, p + 1) == items[p + 1]
      ensures Before(this, items, p) == if p == 0 then FirstOf(this) else NextOf(items[p - 1])
    {
    }

    /** CPP_TAILQ_INSERT_TAIL: an element of this queue moves to its end. */
    method InsertTail(elm: Entry)
      requires Valid() && (elm.removeTag || elm in items)
      modifies this, items, elm
      ensures Valid() && items == Drop(old(items), elm) + [elm]
    {
      Remove(elm);
      assert items != [] ==> items[|items| - 1] in old(items);
      Append(elm);
    }

    /** The pointer writes of CPP_TAILQ_INSERT_TAIL for an unlinked element. */
    method Append(elm: Entry)
      requires Valid() && elm !in items
      modifies this, Last(items), elm
      ensures Valid() && items == old(items) + [elm]
    {
      hide At, Before, Drop, NoDup;
      LastSlot();
      if items != [] {
        Neighbours(items, |items| - 1);
      }
      elm.next := null;
      elm.prev := last;
      match last {
        case FirstOf(h) => h.first := elm;
        case NextOf(e) => e.next := elm;
        case Nowhere =>
      }
      last := NextOf(elm);
      size := size + 1;
      elm.removeTag := false;
      elm.parent := this;
      items := items + [elm];
      Appended(elm);
    }

    lemma LastSlot()
      requires Valid()
      ensures Ends() && NoDup(items) && last == if items == [] then FirstOf(this) else NextOf(items[|items| - 1])
    {
    }

    twostate lemma Appended(elm: Entry)
      requires old(Valid()) && elm !in old(items) && items == old(items) + [elm] && size == old(size) + 1
      requires elm.next == null && elm.prev == old(last) && elm.parent == this && !elm.removeTag && last == NextOf(elm)
      requires var was := old(items);
               && (if was == [] then first == elm else first == old(first) && was[|was| - 1].next == elm)
               && forall i :: 0 <= i < |was| ==>
                    && (i + 1 < |was| ==> was[i].next == old(was[i].next)) && was[i].prev == old(was[i].prev)
                    && was[i].parent == old(was[i].parent) && was[i].removeTag == old(was[i].removeTag)
      ensures Valid()
    {
      var was := old(items);
      AppendKeepsNoDup(was, elm);
      forall j | 0 <= j < |items|
        ensures LinkedAt(j)
      {
        if j < |was| {
          assert old(LinkedAt(j));
        }
      }
    }

    /** CPP_TAILQ_POP: the first element, or none. */
    method Pop() returns (elm: Entry?)
      requires Valid() && items != []
      modifies this, items
      ensures Valid() && elm == old(items)[0] && items == old(items)[1..] && elm.removeTag && elm.parent == null
    {
      Knows(0);
      elm := first;
      RemoveAt(elm);
    }
  }

  /** CPP_TAILQ_INSERT_TAIL of an element that is linked in another queue, the only one there, at the end of
      an empty queue: going through the queues, it is still in the old one and not in the new one, though it
      names the new one and is counted there. */
  method InsertLinkedElsewhere(other: Head, head: Head, elm: Entry)
    requires other != head && other.Valid() && head.Valid() && other.items == [elm] && head.items == []
    modifies other, head, elm
    ensures other.first == elm && elm.next == null && head.first == null
    ensures elm.parent == head && !elm.removeTag && head.size == 1 && other.size == 1
  {
    // CPP_TAILQ_REMOVE through the new head, whose size is 0 already
    other.Knows(0);
    assert elm.next == null;
    head.last := elm.prev;
    elm.removeTag := true;
    elm.parent := null;
    match elm.prev {
      case FirstOf(h) => h.first := elm.next;
      case NextOf(e) => assert false;
      case Nowhere => assert false;
    }
    elm.next := null;
    elm.prev := head.last;
    match head.last {
      case FirstOf(h) => h.first := elm;
      case NextOf(e) => assert false;
      case Nowhere => assert false;
    }
    head.last := NextOf(elm);
    head.size := head.size + 1;
    elm.removeTag := false;
    elm.parent := head;
  }

  /** CPP_TAILQ_REMOVE_SELF: through the queue the element names. */
  method RemoveSelf(elm: Entry)
    requires elm.parent != null ==> elm.parent.Valid() && elm in elm.parent.items
    modifies elm, Holder(elm), Held(elm)
    ensures elm.parent == null
    ensures old(elm.parent) != null ==>
              old(elm.parent).Valid() && old(elm.parent).items == Drop(old(elm.parent.items), elm) && elm.removeTag
  {
    if elm.parent != null {
      elm.parent.RemoveAt(elm);
    }
  }

  ghost function Holder(elm: Entry): set<Head>
    reads elm
  {
    if elm.parent == null then {} else var h: Head := elm.parent; {h}
  }

  ghost function Held(elm: Entry): set<Entry>
    reads elm, Holder(elm)
  {
    if elm.parent == null then {} else set e | e in elm.parent.items
  }
}
