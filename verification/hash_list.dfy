/** The chained hash of stlib/st_hash_list.h: chains of keys that are linked in place, proved to be a list of
    live keys, the newest first. */
module HashList {
  import opened Queues

  /** StHashKey: what HashValue and HashCmp look at never changes; next and stored are the list's. */
  class StHashKey<K(==)> {
    const hash: nat
    const id: K
    var next: StHashKey?<K>
    var stored: nat

    constructor (hash: nat, id: K)
      ensures this.hash == hash && this.id == id && next == null && stored == 0
    {
      this.hash, this.id, this.next, this.stored := hash, id, null, 0;
    }

    /** The same hash value, and HashCmp gives 0. */
    predicate Equals(h: nat, i: K)
    {
      hash == h && id == i
    }
  }

  // ---------- the table ----------

  /** The first key equal to the probe. */
  function First<K(==)>(live: seq<StHashKey<K>>, h: nat, id: K): (r: Option<StHashKey<K>>)
    ensures match r
            case None => forall i :: 0 <= i < |live| ==> !live[i].Equals(h, id)
            case Some(k) =>
              exists i :: 0 <= i < |live| && live[i] == k && k.Equals(h, id)
                          && forall j :: 0 <= j < i ==> !live[j].Equals(h, id)
  {
    if live == [] then None
    else if live[0].Equals(h, id) then Some(live[0])
    else
      var r := First(live[1..], h, id);
      assert r.Some? ==> exists i ::
          && 0 < i < |live| && live[i] == r.value && r.value.Equals(h, id)
          && forall j :: 0 <= j < i ==> !live[j].Equals(h, id) by {
        if r.Some? {
          var i :| 0 <= i < |live[1..]| && live[1..][i] == r.value
                   && forall j :: 0 <= j < i ==> !live[1..][j].Equals(h, id);
          assert live[i + 1] == r.value;
          assert forall j :: 0 < j < i + 1 ==> live[j] == live[1..][j - 1];
        }
      }
      assert forall i :: 0 < i < |live| ==> live[i] == live[1..][i - 1];
      r
  }

  function OrNull<K>(k: Option<StHashKey<K>>): StHashKey?<K>
  {
    if k.Some? then k.value else null
  }

  /** The keys once the first key equal to the probe is removed. */
  function Removed<K(==)>(live: seq<StHashKey<K>>, h: nat, id: K): seq<StHashKey<K>>
  {
    match First(live, h, id)
    case None => live
    case Some(k) => Drop(live, k)
  }

  /** The bucket of a hash value. */
  function Slot(h: nat, max: nat): (i: nat)
    requires max > 0
    ensures i < max
  {
    h % max
  }

  /** The keys of one bucket. */
  function Chain<K>(live: seq<StHashKey<K>>, i: nat, max: nat): (c: seq<StHashKey<K>>)
    requires max > 0
    ensures forall j :: 0 <= j < |c| ==> c[j] in live && Slot(c[j].hash, max) == i
    ensures forall j :: 0 <= j < |live| && Slot(live[j].hash, max) == i ==> live[j] in c
  {
    if live == [] then []
    else if Slot(live[0].hash, max) == i then [live[0]] + Chain(live[1..], i, max)
    else Chain(live[1..], i, max)
  }

  /** The key at j, or no key behind the last. */
  function At<K>(c: seq<StHashKey<K>>, j: nat): StHashKey?<K>
  {
    if j < |c| then c[j] else null
  }

  lemma {:induction false} ChainNoDup<K>(live: seq<StHashKey<K>>, i: nat, max: nat)
    requires max > 0 && NoDup(live)
    ensures NoDup(Chain(live, i, max))
  {
    if live != [] {
      assert forall x, y :: 0 <= x < y < |live[1..]| ==> live[1..][x] == live[x + 1] && live[1..][y] == live[y + 1];
      ChainNoDup(live[1..], i, max);
      assert live[0] !in live[1..];
    }
  }

  /** A probe need look at its own bucket only. */
  lemma {:induction false} FirstInChain<K>(live: seq<StHashKey<K>>, h: nat, id: K, max: nat)
    requires max > 0
    ensures First(Chain(live, Slot(h, max), max), h, id) == First(live, h, id)
  {
    if live != [] {
      FirstInChain(live[1..], h, id, max);
      var c := Chain(live[1..], Slot(h, max), max);
      if Slot(live[0].hash, max) == Slot(h, max) {
        assert ([live[0]] + c)[1..] == c;
      }
    }
  }

  lemma {:induction false} ChainOfDrop<K>(live: seq<StHashKey<K>>, k: StHashKey<K>, i: nat, max: nat)
    requires max > 0 && NoDup(live) && k in live
    ensures Chain(Drop(live, k), i, max)
            == if Slot(k.hash, max) == i then Drop(Chain(live, i, max), k) else Chain(live, i, max)
  {
    if live[0] != k {
      assert forall x, y :: 0 <= x < y < |live[1..]| ==> live[1..][x] == live[x + 1] && live[1..][y] == live[y + 1];
      ChainOfDrop(live[1..], k, i, max);
      assert ([live[0]] + Drop(live[1..], k))[1..] == Drop(live[1..], k);
      var c := Chain(live[1..], i, max);
      assert ([live[0]] + c)[1..] == c;
    } else {
      var c := Chain(live[1..], i, max);
      assert ([k] + c)[1..] == c;
    }
  }

  /** A key inserted is found before every older one; removing it brings these back; the other keys are
      found as before. */
  lemma NewestFirst<K>(live: seq<StHashKey<K>>, k: StHashKey<K>, h: nat, id: K)
    ensures First([k] + live, h, id) == if k.Equals(h, id) then Some(k) else First(live, h, id)
    ensures Removed([k] + live, k.hash, k.id) == live
  {
    assert ([k] + live)[1..] == live;
  }

  // ---------- the list ----------

  class StHashList<K(==)> {
    const buckets: array<StHashKey?<K>>
    var count: int
    /** The keys inserted and not removed since, the newest first. */
    ghost var live: seq<StHashKey<K>>

    /** The list of a bucket: its keys linked in order, the last one linked to none. */
    ghost predicate Linked(i: nat, c: seq<StHashKey<K>>)
      requires i < buckets.Length
      reads buckets, c
    {
      buckets[i] == At(c, 0) && forall j :: 0 <= j < |c| ==> c[j].next == At(c, j + 1)
    }

    ghost predicate Valid()
      reads this, buckets, live
    {
      && buckets.Length > 0 && NoDup(live) && count == |live|
      && (forall k :: k in live ==> k.stored == k.hash)
      && (forall i :: 0 <= i < buckets.Length ==> Linked(i, Chain(live, i, buckets.Length)))
    }

    constructor (max: nat)
      requires max > 0
      ensures Valid() && live == [] && fresh(buckets) && buckets.Length == max
    {
      buckets := new StHashKey?<K>[max](i => null);
      count, live := 0, [];
    }

    lemma HasBuckets()
      requires Valid()
      ensures buckets.Length > 0
    {
    }

    method HashSize() returns (n: int)
      requires Valid()
      ensures n == |live|
    {
      n := count;
    }

    /** What the list knows of one chain. */
    lemma ChainIs(i: nat)
      requires Valid() && i < buckets.Length
      ensures var c := Chain(live, i, buckets.Length);
              && Linked(i, c) && NoDup(c)
              && forall j :: 0 <= j < |c| ==> c[j].stored == c[j].hash && c[j] in live
    {
      ChainNoDup(live, i, buckets.Length);
    }

    method HashFind(key: StHashKey?<K>) returns (item: StHashKey?<K>)
      requires Valid()
      ensures key == null ==> item == null
      ensures key != null ==> item == OrNull(First(live, key.hash, key.id))
    {
      if key == null {
        return null;
      }
      var max := buckets.Length;
      ghost var c := Chain(live, Slot(key.hash, max), max);
      FirstInChain(live, key.hash, key.id, max);
      ChainIs(Slot(key.hash, max));
      hide Slot, First, Chain, Valid;
      item := buckets[Slot(key.hash, max)];
      ghost var j := 0;
      assert c[0..] == c;
      while item != null
        invariant j <= |c| && item == At(c, j)
        invariant First(c[j..], key.hash, key.id) == First(c, key.hash, key.id)
        decreases |c| - j
      {
        FirstStep(c, j, key.hash, key.id);
        if item.stored == key.hash && item.id == key.id {
          return;
        }
        item := item.next;
        j := j + 1;
      }
      FirstOfNone(c[j..], key.hash, key.id);
    }

    /** Links the key in front of its bucket, unless it looks linked. A key of the list is refused, too,
        but for one whose hash value is 0 and that is the last of its chain: that chain becomes a ring. */
    method HashInsert(key: StHashKey?<K>) returns (ok: bool)
      requires Valid()
      modifies this, buckets, key
      ensures ok <==> key != null && old(key.stored == 0 && key.next == null)
      ensures !ok ==> Valid() && live == old(live)
      ensures !ok && key != null ==> key.next == old(key.next) && key.stored == old(key.stored)
      ensures ok && key !in old(live) ==> Valid() && live == [key] + old(live)
      ensures ok && key in old(live) ==>
                var c := Chain(old(live), Slot(key.hash, buckets.Length), buckets.Length);
                && buckets[Slot(key.hash, buckets.Length)] == key && Ring(c) && c[|c| - 1] == key
    {
      HasBuckets();
      hide *;
      if key == null {
        return false;
      }
      if key.stored != 0 || key.next != null {
        return false;
      }
      var idx := Slot(key.hash, buckets.Length);
      ghost var k: StHashKey<K> := key;
      ghost var isLive := k in live;
      key.stored := key.hash;
      key.next := buckets[idx];
      buckets[idx] := key;
      count := count + 1;
      ok := true;
      live := if isLive then live else [key] + live;
      if isLive {
        BecomesRing(k);
      } else {
        InsertKeeps(k);
      }
    }

    /** Keys linked in a circle. */
    ghost predicate Ring(c: seq<StHashKey<K>>)
      reads c
    {
      c != [] && c[|c| - 1].next == c[0] && forall j :: 0 <= j < |c| - 1 ==> c[j].next == c[j + 1]
    }

    /** The writes of an insert. */
    ghost predicate PutInFront(key: StHashKey<K>, idx: nat, was: seq<StHashKey?<K>>)
      reads buckets, key
    {
      idx < |was| && key.stored == key.hash && key.next == was[idx] && buckets[..] == was[idx := key]
    }

    twostate lemma InsertKeeps(key: StHashKey<K>)
      requires old(Valid()) && key !in old(live) && live == [key] + old(live) && count == old(count) + 1
      requires buckets.Length > 0 && PutInFront(key, Slot(key.hash, buckets.Length), old(buckets[..]))
      requires forall k :: k in old(live) && k != key ==> k.next == old(k.next) && k.stored == old(k.stored)
      ensures Valid()
    {
      var max := buckets.Length;
      PrependKeepsNoDup(old(live), key);
      assert live[1..] == old(live);
      forall i | 0 <= i < max
        ensures Linked(i, Chain(live, i, max))
      {
        var c := Chain(old(live), i, max);
        assert Chain(live, i, max) == if i == Slot(key.hash, max) then [key] + c else c;
        assert old(Linked(i, c));
      }
    }

    /** The key was the last of its chain, and now links to the first. */
    twostate lemma BecomesRing(key: StHashKey<K>)
      requires old(Valid()) && key in old(live) && old(key.next) == null
      requires buckets.Length > 0 && PutInFront(key, Slot(key.hash, buckets.Length), old(buckets[..]))
      requires forall k :: k in old(live) && k != key ==> k.next == old(k.next)
      ensures var c := Chain(old(live), Slot(key.hash, buckets.Length), buckets.Length);
              Ring(c) && c[|c| - 1] == key
    {
      var idx := Slot(key.hash, buckets.Length);
      var c := Chain(old(live), idx, buckets.Length);
      ChainNoDup(old(live), idx, buckets.Length);
      assert old(Linked(idx, c));
      assert key in c by {
        var x :| 0 <= x < |old(live)| && old(live)[x] == key;
      }
      hide Slot, Chain, Valid;
      var p :| 0 <= p < |c| && c[p] == key;
      assert old(c[p].next) == At(c, p + 1);
      assert p == |c| - 1;
      forall j | 0 <= j < p
        ensures c[j].next == c[j + 1]
      {
        assert old(c[j].next) == At(c, j + 1);
        assert c[j] != c[p];
      }
      assert old(buckets[idx]) == c[0];
    }

    /** Where a search for the key ends: at the first equal key of its chain, or behind the last. */
    ghost predicate Sought(key: StHashKey<K>, prev: StHashKey?<K>, item: StHashKey?<K>, j: nat)
      requires buckets.Length > 0
      reads this, buckets
    {
      var c := Chain(live, Slot(key.hash, buckets.Length), buckets.Length);
      && j <= |c| && item == At(c, j) && prev == (if j == 0 then null else c[j - 1])
    }

    /** The search of HashRemove. */
    method Seek(key: StHashKey<K>) returns (prev: StHashKey?<K>, item: StHashKey?<K>, ghost j: nat)
      requires Valid()
      ensures buckets.Length > 0 && Sought(key, prev, item, j) && item == OrNull(First(live, key.hash, key.id))
      ensures Removed(live, key.hash, key.id) == if item == null then live
                                                 else var k: StHashKey<K> := item; Drop(live, k)
    {
      var max := buckets.Length;
      ghost var c := Chain(live, Slot(key.hash, max), max);
      FirstInChain(live, key.hash, key.id, max);
      ChainIs(Slot(key.hash, max));
      hide Slot, First, Chain, Valid, NoDup;
      prev := null;
      item := buckets[Slot(key.hash, max)];
      j := 0;
      assert c[0..] == c;
      while item != null
        invariant j <= |c| && item == At(c, j) && prev == (if j == 0 then null else c[j - 1])
        invariant First(c[j..], key.hash, key.id) == First(c, key.hash, key.id)
        decreases |c| - j
      {
        FirstStep(c, j, key.hash, key.id);
        if item.stored == key.hash && item.id == key.id {
          return;
        }
        prev := item;
        item := item.next;
        j := j + 1;
      }
      FirstOfNone(c[j..], key.hash, key.id);
    }

    /** Unlinks the key found and gives it to the caller. */
    method HashRemove(key: StHashKey?<K>) returns (item: StHashKey?<K>)
      requires Valid()
      modifies this, buckets, live
      ensures Valid() && (key == null ==> item == null)
      ensures key != null ==> item == OrNull(First(old(live), key.hash, key.id))
      ensures live == if key == null then old(live) else Removed(old(live), key.hash, key.id)
      ensures item != null ==> item.next == null && item.stored == 0
    {
      if key == null {
        return null;
      }
      hide *;
      var prev; ghost var j;
      prev, item, j := Seek(key);
      if item != null {
        CanUnlink(key, prev, item, j);
        Unlink(Slot(key.hash, buckets.Length), prev, item, j);
      }
    }

    lemma CanUnlink(key: StHashKey<K>, prev: StHashKey?<K>, item: StHashKey<K>, j: nat)
      requires buckets.Length > 0 && Sought(key, prev, item, j)
      ensures var c := Chain(live, Slot(key.hash, buckets.Length), buckets.Length);
              j < |c| && c[j] == item && prev == (if j == 0 then null else c[j - 1])
    {
      hide Slot, Chain, First;
    }

    /** Takes the key at place j of its chain, behind prev, out of it. */
    method Unlink(idx: nat, prev: StHashKey?<K>, item: StHashKey<K>, ghost j: nat)
      requires Valid() && idx < buckets.Length
      requires var c := Chain(live, idx, buckets.Length);
               j < |c| && c[j] == item && prev == (if j == 0 then null else c[j - 1])
      modifies this, buckets, live
      ensures Valid() && live == Drop(old(live), item) && item.next == null && item.stored == 0
    {
      hide Slot, First, Chain, Drop, NoDup, Valid, Linked, Place, At;
      ghost var c := Chain(live, idx, buckets.Length);
      ChainIs(idx);
      PlaceIs(c, j);
      if prev != null {
        prev.next := item.next;
      } else {
        buckets[idx] := item.next;
      }
      item.next := null;
      item.stored := 0;
      count := count - 1;
      live := Drop(live, item);
      UnlinkKeeps(item);
    }

    /** The links and buckets after item was taken out of its chain. */
    twostate predicate TakenOut(item: StHashKey<K>)
      requires buckets.Length > 0
      reads *
    {
      var idx := Slot(item.hash, buckets.Length);
      var c := Chain(old(live), idx, buckets.Length);
      && item in c
      && var p := Place(c, item);
         && buckets[..] == (if p == 0 then old(buckets[..])[idx := old(item.next)] else old(buckets[..]))
         && (p > 0 ==> c[p - 1].next == old(item.next))
         && (forall k :: k in old(live) && k != item && (p > 0 ==> k != c[p - 1]) ==> k.next == old(k.next))
    }

    /** The links in the chain of the key at place p, which was taken out. */
    ghost predicate Bridged(idx: nat, c: seq<StHashKey<K>>, p: nat)
      requires p < |c| && idx < buckets.Length
      reads buckets, c
    {
      && buckets[idx] == At(c, if p == 0 then 1 else 0)
      && (p > 0 ==> c[p - 1].next == At(c, p + 1))
      && forall j :: 0 <= j < |c| && j != p && j + 1 != p ==> c[j].next == At(c, j + 1)
    }

    twostate lemma IsBridged(item: StHashKey<K>)
      requires old(Valid()) && buckets.Length > 0 && TakenOut(item)
      ensures var idx := Slot(item.hash, buckets.Length);
              var c := Chain(old(live), idx, buckets.Length);
              item in c && Bridged(idx, c, Place(c, item))
    {
      hide Drop, At, First;
      var idx := Slot(item.hash, buckets.Length);
      var c := Chain(old(live), idx, buckets.Length);
      ChainNoDup(old(live), idx, buckets.Length);
      assert old(Linked(idx, c));
      var p := Place(c, item);
      assert old(item.next) == At(c, p + 1);
      assert buckets[..][idx] == buckets[idx];
      forall j | 0 <= j < |c| && j != p && j + 1 != p
        ensures c[j].next == At(c, j + 1)
      {
        Distinct(c, j, p);
        assert old(c[j].next) == At(c, j + 1);
        if 0 < p {
          Distinct(c, j, p - 1);
        }
      }
    }

    lemma BridgedIsLinked(idx: nat, c: seq<StHashKey<K>>, p: nat)
      requires p < |c| && idx < buckets.Length && Bridged(idx, c, p)
      ensures Linked(idx, c[..p] + c[p + 1..])
    {
      hide At;
      var d := c[..p] + c[p + 1..];
      Shifted(c, p, 0);
      forall j | 0 <= j < |d|
        ensures d[j].next == At(d, j + 1)
      {
        Shifted(c, p, j);
        Shifted(c, p, j + 1);
      }
    }

    twostate lemma OwnChain(item: StHashKey<K>)
      requires old(Valid()) && buckets.Length > 0 && TakenOut(item)
      ensures var idx := Slot(item.hash, buckets.Length); Linked(idx, Drop(Chain(old(live), idx, buckets.Length), item))
    {
      var idx := Slot(item.hash, buckets.Length);
      var c := Chain(old(live), idx, buckets.Length);
      ChainNoDup(old(live), idx, buckets.Length);
      IsBridged(item);
      hide Slot, Chain, Valid, Drop, Place, NoDup, TakenOut, Bridged, Linked;
      BridgedIsLinked(idx, c, Place(c, item));
      DropAt(c, Place(c, item));
    }

    twostate lemma OtherChains(item: StHashKey<K>)
      requires old(Valid()) && buckets.Length > 0 && TakenOut(item)
      ensures forall i :: 0 <= i < buckets.Length && i != Slot(item.hash, buckets.Length) ==>
                Linked(i, Chain(old(live), i, buckets.Length))
    {
      hide Chain, Drop, Place, NoDup, At, Slot;
      var idx := Slot(item.hash, buckets.Length);
      var c := Chain(old(live), idx, buckets.Length);
      forall i | 0 <= i < buckets.Length && i != idx
        ensures Linked(i, Chain(old(live), i, buckets.Length))
      {
        var d := Chain(old(live), i, buckets.Length);
        assert old(Linked(i, d));
        var p := Place(c, item);
        assert buckets[..][i] == old(buckets[..])[i];
        forall j | 0 <= j < |d|
          ensures d[j].next == At(d, j + 1)
        {
          assert d[j] != item && (p > 0 ==> d[j] != c[p - 1]);
          assert old(d[j].next) == At(d, j + 1);
        }
      }
    }

    twostate lemma UnlinkKeeps(item: StHashKey<K>)
      requires old(Valid()) && item in old(live) && live == Drop(old(live), item) && count == old(count) - 1
      requires buckets.Length > 0 && TakenOut(item)
      requires forall k :: k in old(live) && k != item ==> k.stored == old(k.stored)
      ensures Valid()
    {
      var max := buckets.Length;
      DropKeepsTheRest(old(live), item);
      OwnChain(item);
      OtherChains(item);
      forall i | 0 <= i < max
        ensures Linked(i, Chain(live, i, max))
      {
        ChainOfDrop(old(live), item, i, max);
        hide Slot, Chain, Drop, Linked, TakenOut, Valid, NoDup;
      }
      hide Slot, Chain, Drop, Linked, TakenOut;
    }
  }

  /** A chain without the key at p. */
  lemma Shifted<K>(c: seq<StHashKey<K>>, p: nat, j: nat)
    requires p < |c| && j <= |c| - 1
    ensures At(c[..p] + c[p + 1..], j) == At(c, if j < p then j else j + 1)
    ensures j < |c| - 1 ==> (c[..p] + c[p + 1..])[j] == c[if j < p then j else j + 1]
  {
  }

  lemma Distinct<T>(c: seq<T>, i: nat, j: nat)
    requires NoDup(c) && i < |c| && j < |c| && i != j
    ensures c[i] != c[j]
  {
  }

  lemma PrependKeepsNoDup<K>(live: seq<StHashKey<K>>, key: StHashKey<K>)
    requires NoDup(live) && key !in live
    ensures NoDup([key] + live)
  {
  }

  lemma FirstStep<K>(c: seq<StHashKey<K>>, j: nat, h: nat, id: K)
    requires j < |c|
    ensures First(c[j..], h, id) == if c[j].Equals(h, id) then Some(c[j]) else First(c[j + 1..], h, id)
  {
    assert c[j..][1..] == c[j + 1..];
  }

  lemma FirstOfNone<K>(c: seq<StHashKey<K>>, h: nat, id: K)
    requires c == []
    ensures First(c, h, id) == None
  {
  }

  /** A key with hash value 0 inserted twice into a new list: it links to itself, and a search of its bucket
      for any other key does not end. */
  method InsertTwice<K>(max: nat, key: StHashKey<K>) returns (list: StHashList<K>)
    requires max > 0 && key.hash == 0 && key.stored == 0 && key.next == null
    modifies key
    ensures fresh(list) && fresh(list.buckets) && list.buckets.Length == max
    ensures list.Ring([key]) && key.next == key && list.buckets[0] == key
  {
    list := new StHashList(max);
    var first := list.HashInsert(key);
    KeyIsLast(list, key);
    var second := list.HashInsert(key);
  }

  /** The only key of a list, with hash value 0, looks unlinked. */
  lemma KeyIsLast<K>(list: StHashList<K>, key: StHashKey<K>)
    requires list.Valid() && list.live == [key] && key.hash == 0
    ensures key.stored == 0 && key.next == null && Slot(0, list.buckets.Length) == 0
    ensures Chain(list.live, 0, list.buckets.Length) == [key]
  {
    assert list.live[1..] == [];
    assert list.Linked(0, Chain(list.live, 0, list.buckets.Length));
  }
}
