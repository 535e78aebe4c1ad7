/** The sleep heap of stlib/st_heap.h on plain values: a 1-based binary min-heap whose slot i is
    element i-1 of a sequence. */
module HeapModel {

  /** An entry of the heap and the value it is ordered by. */
  datatype Node<T> = Node(item: T, key: int)

  function Swap<T>(h: seq<Node<T>>, i: nat, j: nat): seq<Node<T>>
    requires 1 <= i <= |h| && 1 <= j <= |h|
  {
    h[i - 1 := h[j - 1]][j - 1 := h[i - 1]]
  }

  function SiftUp<T>(h: seq<Node<T>>, pos: nat): (r: seq<Node<T>>)
    requires 1 <= pos <= |h|
    ensures |r| == |h|
    decreases pos
  {
    if pos == 1 || h[pos - 1].key >= h[pos / 2 - 1].key then h
    else SiftUp(Swap(h, pos, pos / 2), pos / 2)
  }

  /** The child SiftDown exchanges with slot pos, or pos itself when neither child is smaller. */
  function BestChild<T>(h: seq<Node<T>>, pos: nat): (b: nat)
    requires 1 <= pos <= |h|
    ensures b == pos || (b <= |h| && (b == 2 * pos || b == 2 * pos + 1))
  {
    var b0 := if 2 * pos <= |h| && h[2 * pos - 1].key < h[pos - 1].key then 2 * pos else pos;
    if 2 * pos + 1 <= |h| && h[2 * pos].key < h[b0 - 1].key then 2 * pos + 1 else b0
  }

  function SiftDown<T>(h: seq<Node<T>>, pos: nat): (r: seq<Node<T>>)
    requires 1 <= pos <= |h|
    ensures |r| == |h|
    decreases |h| - pos
  {
    var b := BestChild(h, pos);
    if b == pos then h else SiftDown(Swap(h, pos, b), b)
  }

  function Push<T>(h: seq<Node<T>>, n: Node<T>): (r: seq<Node<T>>)
    ensures |r| == |h| + 1
  {
    SiftUp(h + [n], |h| + 1)
  }

  function DeleteAt<T>(h: seq<Node<T>>, pos: nat): (r: seq<Node<T>>)
    requires 1 <= pos <= |h|
    ensures |r| == |h| - 1
  {
    if pos == |h| then h[..|h| - 1]
    else
      var g := MoveLast(h, pos);
      if pos > 1 && g[pos - 1].key < g[pos / 2 - 1].key then SiftUp(g, pos) else SiftDown(g, pos)
  }

  function Pop<T>(h: seq<Node<T>>): (r: seq<Node<T>>)
    requires h != []
    ensures |r| == |h| - 1
  {
    var g := Swap(h, 1, |h|)[..|h| - 1];
    if g == [] then g else SiftDown(g, 1)
  }

  /** Every slot holds a value no smaller than its parent slot. */
  ghost predicate IsHeap<T>(h: seq<Node<T>>)
  {
    forall i :: 2 <= i <= |h| ==> h[i / 2 - 1].key <= h[i - 1].key
  }

  /** Heap order except between slot pos and its parent. */
  ghost predicate HeapButUp<T>(h: seq<Node<T>>, pos: nat)
  {
    && (forall i :: 2 <= i <= |h| && i != pos ==> h[i / 2 - 1].key <= h[i - 1].key)
    && (forall i :: 2 <= i <= |h| && i / 2 == pos && pos >= 2 ==> h[pos / 2 - 1].key <= h[i - 1].key)
  }

  /** Heap order except between slot pos and its children. */
  ghost predicate HeapButDown<T>(h: seq<Node<T>>, pos: nat)
  {
    && (forall i :: 2 <= i <= |h| && i / 2 != pos ==> h[i / 2 - 1].key <= h[i - 1].key)
    && (forall i :: 2 <= i <= |h| && i / 2 == pos && pos >= 2 ==> h[pos / 2 - 1].key <= h[i - 1].key)
  }

  /** No item occurs twice. */
  ghost predicate Distinct<T>(h: seq<Node<T>>)
  {
    forall i, j :: 0 <= i < j < |h| ==> h[i].item != h[j].item
  }

  ghost predicate HasItem<T>(h: seq<Node<T>>, x: T)
  {
    exists i :: 0 <= i < |h| && h[i].item == x
  }

  lemma {:induction false} SiftUpRestores<T>(h: seq<Node<T>>, pos: nat)
    requires 1 <= pos <= |h| && HeapButUp(h, pos)
    ensures IsHeap(SiftUp(h, pos))
    decreases pos
  {
    if pos == 1 || h[pos - 1].key >= h[pos / 2 - 1].key {
    } else {
      SiftUpRestores(Swap(h, pos, pos / 2), pos / 2);
    }
  }

  lemma {:induction false} SiftDownRestores<T>(h: seq<Node<T>>, pos: nat)
    requires 1 <= pos <= |h| && HeapButDown(h, pos)
    ensures IsHeap(SiftDown(h, pos))
    decreases |h| - pos
  {
    var b := BestChild(h, pos);
    if b != pos {
      var g := Swap(h, pos, b);
      forall i | 2 <= i <= |g| && i / 2 != b
        ensures g[i / 2 - 1].key <= g[i - 1].key
      {
        assert h[i / 2 - 1].key <= h[i - 1].key || i / 2 == pos;
      }
      SiftDownRestores(g, b);
    }
  }

  lemma SwapPermutes<T>(h: seq<Node<T>>, i: nat, j: nat)
    requires 1 <= i <= |h| && 1 <= j <= |h|
    ensures multiset(Swap(h, i, j)) == multiset(h)
    ensures Distinct(h) ==> Distinct(Swap(h, i, j))
  {
  }

  lemma {:induction false} SiftUpPermutes<T>(h: seq<Node<T>>, pos: nat)
    requires 1 <= pos <= |h|
    ensures multiset(SiftUp(h, pos)) == multiset(h)
    ensures Distinct(h) ==> Distinct(SiftUp(h, pos))
    decreases pos
  {
    if pos == 1 || h[pos - 1].key >= h[pos / 2 - 1].key {
    } else {
      SwapPermutes(h, pos, pos / 2);
      SiftUpPermutes(Swap(h, pos, pos / 2), pos / 2);
    }
  }

  lemma {:induction false} SiftDownPermutes<T>(h: seq<Node<T>>, pos: nat)
    requires 1 <= pos <= |h|
    ensures multiset(SiftDown(h, pos)) == multiset(h)
    ensures Distinct(h) ==> Distinct(SiftDown(h, pos))
    decreases |h| - pos
  {
    var b := BestChild(h, pos);
    if b != pos {
      SwapPermutes(h, pos, b);
      SiftDownPermutes(Swap(h, pos, b), b);
    }
  }

  /** Slot 1 holds a minimum. */
  lemma {:induction false} TopIsMinimum<T>(h: seq<Node<T>>, i: nat)
    requires IsHeap(h) && 1 <= i <= |h|
    ensures h[0].key <= h[i - 1].key
    decreases i
  {
    if i > 1 {
      TopIsMinimum(h, i / 2);
    }
  }

  /** Push adds exactly the new entry and keeps the order. */
  lemma PushRefinesAdd<T>(h: seq<Node<T>>, n: Node<T>)
    requires IsHeap(h)
    ensures IsHeap(Push(h, n))
    ensures multiset(Push(h, n)) == multiset(h) + multiset{n}
    ensures Distinct(h) && !HasItem(h, n.item) ==> Distinct(Push(h, n))
  {
    var g := h + [n];
    SiftUpRestores(g, |g|);
    SiftUpPermutes(g, |g|);
  }

  /** The last entry moved into slot pos: what DeleteAt and Pop sift from. */
  function MoveLast<T>(h: seq<Node<T>>, pos: nat): (g: seq<Node<T>>)
    requires 1 <= pos < |h|
    ensures |g| == |h| - 1
  {
    h[pos - 1 := h[|h| - 1]][..|h| - 1]
  }

  lemma MoveLastTakesOne<T>(h: seq<Node<T>>, pos: nat)
    requires 1 <= pos < |h|
    ensures multiset(MoveLast(h, pos)) == multiset(h) - multiset{h[pos - 1]}
    ensures Distinct(h) ==> Distinct(MoveLast(h, pos))
  {
    var last := |h| - 1;
    assert h == h[..last] + [h[last]];
    assert MoveLast(h, pos) == h[..last][pos - 1 := h[last]];
  }

  lemma MoveLastSplit<T>(h: seq<Node<T>>, pos: nat)
    requires IsHeap(h) && 1 <= pos < |h|
    ensures var g := MoveLast(h, pos);
            if pos > 1 && g[pos - 1].key < g[pos / 2 - 1].key then HeapButUp(g, pos) else HeapButDown(g, pos)
  {
    var g := MoveLast(h, pos);
    assert forall i :: 0 <= i < |g| && i != pos - 1 ==> g[i] == h[i];
    if pos > 1 {
      assert g[pos / 2 - 1] == h[pos / 2 - 1];
      assert h[pos / 2 - 1].key <= h[pos - 1].key;
    }
    forall i | 2 <= i <= |g| && i / 2 == pos
      ensures h[pos - 1].key <= g[i - 1].key
    {
      assert h[i / 2 - 1].key <= h[i - 1].key;
    }
    forall i | 2 <= i <= |g| && i / 2 != pos && i != pos
      ensures g[i / 2 - 1].key <= g[i - 1].key
    {
      assert h[i / 2 - 1].key <= h[i - 1].key;
    }
  }

  /** Deleting any slot takes away exactly its entry and keeps the order. */
  lemma DeleteRefinesRemove<T>(h: seq<Node<T>>, pos: nat)
    requires IsHeap(h) && 1 <= pos <= |h|
    ensures IsHeap(DeleteAt(h, pos))
    ensures multiset(DeleteAt(h, pos)) == multiset(h) - multiset{h[pos - 1]}
    ensures Distinct(h) ==> Distinct(DeleteAt(h, pos))
  {
    if pos == |h| {
      assert h == h[..pos - 1] + [h[pos - 1]];
    } else {
      var g := MoveLast(h, pos);
      MoveLastSplit(h, pos);
      MoveLastTakesOne(h, pos);
      if pos > 1 && g[pos - 1].key < g[pos / 2 - 1].key {
        SiftUpRestores(g, pos);
        SiftUpPermutes(g, pos);
      } else {
        SiftDownRestores(g, pos);
        SiftDownPermutes(g, pos);
      }
    }
  }

  /** Pop is deletion of slot 1. */
  lemma PopIsDeleteTop<T>(h: seq<Node<T>>)
    requires h != []
    ensures Pop(h) == DeleteAt(h, 1)
  {
    if |h| > 1 {
      assert Swap(h, 1, |h|)[..|h| - 1] == MoveLast(h, 1);
    }
  }

  /** Pop takes away slot 1, which is a minimum, and keeps the order. */
  lemma PopRefinesExtractMin<T>(h: seq<Node<T>>)
    requires IsHeap(h) && h != []
    ensures IsHeap(Pop(h))
    ensures multiset(Pop(h)) == multiset(h) - multiset{h[0]}
    ensures Distinct(h) ==> Distinct(Pop(h))
    ensures forall n :: n in h ==> h[0].key <= n.key
  {
    PopIsDeleteTop(h);
    DeleteRefinesRemove(h, 1);
    forall n | n in h
      ensures h[0].key <= n.key
    {
      var i :| 0 <= i < |h| && h[i] == n;
      TopIsMinimum(h, i + 1);
    }
  }

  lemma {:induction false} DistinctCountsOnce<T>(h: seq<Node<T>>, n: Node<T>)
    requires Distinct(h)
    ensures multiset(h)[n] <= 1
  {
    if h != [] {
      var last := |h| - 1;
      DistinctCountsOnce(h[..last], n);
      assert h == h[..last] + [h[last]];
    }
  }

  /** The entries after a deletion are the entries before it except the deleted one. */
  lemma DeleteMembers<T>(h: seq<Node<T>>, pos: nat)
    requires IsHeap(h) && Distinct(h) && 1 <= pos <= |h|
    ensures forall n :: n in DeleteAt(h, pos) <==> n in h && n != h[pos - 1]
    ensures forall x :: HasItem(DeleteAt(h, pos), x) <==> HasItem(h, x) && x != h[pos - 1].item
  {
    var r := DeleteAt(h, pos);
    DeleteRefinesRemove(h, pos);
    forall n
      ensures n in r <==> n in h && n != h[pos - 1]
    {
      DistinctCountsOnce(h, n);
      assert n in r <==> n in multiset(r);
      assert n in h <==> n in multiset(h);
    }
    forall x
      ensures HasItem(r, x) <==> HasItem(h, x) && x != h[pos - 1].item
    {
      if HasItem(r, x) {
        var i :| 0 <= i < |r| && r[i].item == x;
        assert r[i] in h;
      }
      if HasItem(h, x) && x != h[pos - 1].item {
        var i :| 0 <= i < |h| && h[i].item == x;
        assert h[i] in r;
      }
    }
  }

  /** The entries after a push are the entries before it and the new one. */
  lemma PushMembers<T>(h: seq<Node<T>>, n: Node<T>)
    requires IsHeap(h)
    ensures forall m :: m in Push(h, n) <==> m in h || m == n
    ensures forall x :: HasItem(Push(h, n), x) <==> HasItem(h, x) || x == n.item
  {
    var r := Push(h, n);
    PushRefinesAdd(h, n);
    forall m
      ensures m in r <==> m in h || m == n
    {
      assert m in r <==> m in multiset(r);
      assert m in h <==> m in multiset(h);
    }
    forall x
      ensures HasItem(r, x) <==> HasItem(h, x) || x == n.item
    {
      if HasItem(r, x) {
        var i :| 0 <= i < |r| && r[i].item == x;
        assert r[i] in h || r[i] == n;
      }
      if HasItem(h, x) {
        var i :| 0 <= i < |h| && h[i].item == x;
        assert h[i] in r;
      }
      assert n in r;
    }
  }
}
