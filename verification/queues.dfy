/** Options and duplicate-free queues, shared by the models below. */
module Queues {

  datatype Option<T> = None | Some(value: T)

  ghost predicate NoDup<T>(q: seq<T>)
  {
    forall i, j :: 0 <= i < j < |q| ==> q[i] != q[j]
  }

  /** The queue without the first occurrence of t. */
  function Drop<T(==)>(q: seq<T>, t: T): (r: seq<T>)
    ensures forall x :: x in r ==> x in q
    ensures t !in q ==> r == q
    ensures t in q ==> |r| == |q| - 1
  {
    if q == [] then []
    else if q[0] == t then q[1..]
    else [q[0]] + Drop(q[1..], t)
  }

  lemma {:induction false} DropKeepsTheRest<T>(q: seq<T>, t: T)
    requires NoDup(q)
    ensures NoDup(Drop(q, t))
    ensures forall x :: x in Drop(q, t) <==> x in q && x != t
  {
    if q != [] && q[0] != t {
      DropKeepsTheRest(q[1..], t);
      assert q == [q[0]] + q[1..];
      assert q[0] !in q[1..];
    } else if q != [] {
      assert q == [q[0]] + q[1..];
    }
  }

  lemma AppendKeepsNoDup<T>(q: seq<T>, t: T)
    requires NoDup(q) && t !in q
    ensures NoDup(q + [t])
    ensures forall x :: x in q + [t] <==> x in q || x == t
  {
  }

  lemma {:induction false} DropAt<T>(q: seq<T>, k: nat)
    requires NoDup(q) && k < |q|
    ensures Drop(q, q[k]) == q[..k] + q[k + 1..]
  {
    if k > 0 {
      assert q[0] != q[k];
      assert q[1..][k - 1] == q[k];
      DropAt(q[1..], k - 1);
      assert [q[0]] + (q[1..][..k - 1] + q[1..][k..]) == q[..k] + q[k + 1..];
    }
  }

  /** Where the first occurrence of t is. */
  function Place<T(==)>(q: seq<T>, t: T): (p: nat)
    requires t in q
    ensures p < |q| && q[p] == t && forall i :: 0 <= i < p ==> q[i] != t
  {
    if q[0] == t then 0 else Place(q[1..], t) + 1
  }

  lemma PlaceIs<T>(q: seq<T>, k: nat)
    requires NoDup(q) && k < |q|
    ensures q[k] in q && Place(q, q[k]) == k
  {
    assert q[Place(q, q[k])] == q[k];
  }
}
