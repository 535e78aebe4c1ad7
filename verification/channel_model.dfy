/** The channels of stlib/tests/ucontext/channel.c on values: ring buffers, queues of waiting alternatives,
    and calls of chanalt by many tasks. C names channels, T tasks, V values. */
module ChannelModel {
  import opened Queues

  /** One alternative: a send with its value (nil sends zero), a receive and whether it has room for the
      value, or nothing. */
  datatype Alt<C, V> = Send(c: C, v: Option<V>) | Recv(c: C, keep: bool) | Nop

  /** An entry of a queue: a parked task and the index of one of its alternatives. */
  datatype Entry<T> = Entry(task: T, index: nat)

  /** A channel. `sent` and `got` record everything that was ever put in and taken out. */
  datatype Chan<T, V> = Chan(
    ring: seq<V>, off: nat, n: nat,
    asend: seq<Entry<T>>, arecv: seq<Entry<T>>,
    sent: seq<V>, got: seq<V>)

  /** The channels, the alternatives of the parked tasks, and what the calls returned that were finished
      by another task: the index and, for a receive, the value. */
  datatype World<C(==), T(==), V> = World(
    chans: map<C, Chan<T, V>>,
    parked: map<T, seq<Alt<C, V>>>,
    ready: map<T, (nat, Option<V>)>)

  // ---------- the ring ----------

  ghost predicate RingOk<T, V>(ch: Chan<T, V>)
  {
    ch.n <= |ch.ring| && (ch.off < |ch.ring| || (ch.ring == [] && ch.off == 0))
  }

  /** The slot of the k-th value in the buffer. */
  function Slot<T, V>(ch: Chan<T, V>, k: nat): (i: nat)
    requires k < |ch.ring| && ch.off < |ch.ring|
    ensures i < |ch.ring|
  {
    if ch.off + k < |ch.ring| then ch.off + k else ch.off + k - |ch.ring|
  }

  /** The values in the buffer, oldest first. */
  function Contents<T, V>(ch: Chan<T, V>): (q: seq<V>)
    requires RingOk(ch)
    ensures |q| == ch.n
  {
    seq(ch.n, k requires 0 <= k < ch.n && RingOk(ch) => ch.ring[Slot(ch, k)])
  }

  function Take<T, V>(ch: Chan<T, V>): (r: (Chan<T, V>, V))
    requires RingOk(ch) && ch.n > 0
  {
    var v := ch.ring[ch.off];
    (ch.(off := if ch.off + 1 == |ch.ring| then 0 else ch.off + 1, n := ch.n - 1, got := ch.got + [v]), v)
  }

  function Put<T, V>(ch: Chan<T, V>, v: V): Chan<T, V>
    requires RingOk(ch) && ch.n < |ch.ring|
  {
    ch.(ring := ch.ring[(ch.off + ch.n) % |ch.ring| := v], n := ch.n + 1, sent := ch.sent + [v])
  }

  lemma TakeExact<T, V>(ch: Chan<T, V>)
    requires RingOk(ch) && ch.n > 0
    ensures var (ch', v) := Take(ch);
            RingOk(ch') && v == Contents(ch)[0] && Contents(ch') == Contents(ch)[1..]
  {
    var ch' := Take(ch).0;
    forall k | 0 <= k < ch'.n
      ensures Contents(ch')[k] == Contents(ch)[k + 1]
    {
      assert Slot(ch', k) == Slot(ch, k + 1);
    }
  }

  lemma PutExact<T, V>(ch: Chan<T, V>, v: V)
    requires RingOk(ch) && ch.n < |ch.ring|
    ensures RingOk(Put(ch, v)) && Contents(Put(ch, v)) == Contents(ch) + [v]
  {
    var ch' := Put(ch, v);
    ModIsSlot(ch, ch.n);
    forall k | 0 <= k < ch'.n
      ensures Contents(ch')[k] == (Contents(ch) + [v])[k]
    {
      assert Slot(ch', k) == Slot(ch, k);
    }
  }

  lemma ModIsSlot<T, V>(ch: Chan<T, V>, k: nat)
    requires k < |ch.ring| && ch.off < |ch.ring|
    ensures (ch.off + k) % |ch.ring| == Slot(ch, k)
  {
  }

  /** altcopy: directly when nothing is buffered and both sides are there, else a receive and then a send. */
  function Copy<T, V>(ch: Chan<T, V>, send: Option<V>, recv: bool): (r: (Chan<T, V>, Option<V>))
    requires RingOk(ch) && CopyOk(ch, send.Some?, recv)
  {
    if send.Some? && recv && ch.n == 0 then
      (ch.(sent := ch.sent + [send.value], got := ch.got + [send.value]), send)
    else
      var (ch1, out) := if recv then (var (c, v) := Take(ch); (c, Some(v))) else (ch, None);
      (if send.Some? then Put(ch1, send.value) else ch1, out)
  }

  /** What altexec sees to before it copies. */
  predicate CopyOk<T, V>(ch: Chan<T, V>, send: bool, recv: bool)
  {
    && (recv && !send ==> ch.n > 0)
    && (send && !recv ==> ch.n < |ch.ring|)
  }

  /** Everything sent is everything received followed by what is in the buffer. */
  ghost predicate Conserves<T, V>(ch: Chan<T, V>)
  {
    RingOk(ch) && ch.sent == ch.got + Contents(ch)
  }

  lemma CopyConserves<T, V>(ch: Chan<T, V>, send: Option<V>, recv: bool)
    requires Conserves(ch) && CopyOk(ch, send.Some?, recv)
    ensures var (ch', out) := Copy(ch, send, recv);
            && Conserves(ch') && |ch'.ring| == |ch.ring| && ch'.asend == ch.asend && ch'.arecv == ch.arecv
            && ch'.n == ch.n + (if send.Some? then 1 else 0) - (if recv then 1 else 0)
            && ch'.sent == ch.sent + (if send.Some? then [send.value] else [])
            && ch'.got == ch.got + (if recv then [out.value] else []) && (out.Some? <==> recv)
  {
    if send.Some? && recv && ch.n == 0 {
      var ch' := Copy(ch, send, recv).0;
      assert Contents(ch') == [] == Contents(ch);
      assert ch.sent == ch.got;
    } else {
      var ch1 := ch;
      if recv {
        TakeExact(ch);
        ch1 := Take(ch).0;
        assert ch.got + Contents(ch) == (ch.got + [Contents(ch)[0]]) + Contents(ch)[1..];
      }
      if send.Some? {
        PutExact(ch1, send.value);
        assert ch1.got + (Contents(ch1) + [send.value]) == ch1.got + Contents(ch1) + [send.value];
      }
    }
  }

  // ---------- queues of entries ----------

  /** delarray: the last entry takes the place of the i-th. */
  function DelAt<T>(q: seq<T>, i: nat): seq<T>
    requires i < |q|
  {
    q[i := q[|q| - 1]][..|q| - 1]
  }

  /** The place of e from i on, or the length. */
  function Find<T(==)>(q: seq<T>, e: T, i: nat): (k: nat)
    requires i <= |q|
    ensures i <= k <= |q| && (k < |q| ==> q[k] == e) && (forall j :: i <= j < k ==> q[j] != e)
    decreases |q| - i
  {
    if i == |q| || q[i] == e then i else Find(q, e, i + 1)
  }

  /** altdequeue; nothing stands for its abort. */
  function Dequeue<T(==)>(q: seq<T>, e: T): Option<seq<T>>
  {
    var k := Find(q, e, 0);
    if k == |q| then None else Some(DelAt(q, k))
  }

  lemma DequeueExact<T>(q: seq<T>, e: T)
    requires NoDup(q)
    ensures Dequeue(q, e).Some? <==> e in q
    ensures e in q ==> NoDup(Dequeue(q, e).value) && forall x :: x in Dequeue(q, e).value <==> x in q && x != e
  {
    var k := Find(q, e, 0);
    if k < |q| {
      var r := DelAt(q, k);
      forall x | x in q && x != e
        ensures x in r
      {
        var i :| 0 <= i < |q| && q[i] == x;
        assert r[if i < |q| - 1 then i else k] == x;
      }
      forall x | x in r
        ensures x in q && x != e
      {
        var i :| 0 <= i < |r| && r[i] == x;
        assert x == q[if i == k then |q| - 1 else i];
      }
    }
  }

  // ---------- the world ----------

  /** Alternative a is a send (or a receive) on channel c. */
  predicate IsOn<C(==), V>(a: Alt<C, V>, c: C, send: bool)
  {
    match a
    case Send(d, _) => send && c == d
    case Recv(d, _) => !send && c == d
    case Nop => false
  }

  /** Entry e is an alternative of a parked task on channel c. */
  ghost predicate Waits<C, T, V>(w: World<C, T, V>, e: Entry<T>, c: C, send: bool)
  {
    e.task in w.parked && e.index < |w.parked[e.task]| && IsOn(w.parked[e.task][e.index], c, send)
  }

  ghost predicate Exists<C, T, V>(w: World<C, T, V>, alts: seq<Alt<C, V>>)
  {
    forall i :: 0 <= i < |alts| ==> alts[i].Nop? || alts[i].c in w.chans
  }

  /** The queues hold the alternatives of the parked tasks, each once and each on its own channel. */
  ghost predicate QueuesOk<C, T, V>(w: World<C, T, V>)
  {
    && (forall c :: c in w.chans ==> NoDup(w.chans[c].asend) && NoDup(w.chans[c].arecv))
    && (forall c, e :: c in w.chans && e in w.chans[c].asend ==> Waits(w, e, c, true))
    && (forall c, e :: c in w.chans && e in w.chans[c].arecv ==> Waits(w, e, c, false))
    && (forall t :: t in w.parked ==> Listed(w, t, |w.parked[t]|))
  }

  /** The first n alternatives of task t are queued where they belong. */
  ghost predicate Listed<C, T, V>(w: World<C, T, V>, t: T, n: nat)
    requires t in w.parked
  {
    && Exists(w, w.parked[t])
    && forall i :: 0 <= i < n && i < |w.parked[t]| && !w.parked[t][i].Nop? ==>
         var ch := w.chans[w.parked[t][i].c];
         if w.parked[t][i].Send? then Entry(t, i) in ch.asend else Entry(t, i) in ch.arecv
  }

  /** A buffered channel has waiting receivers only when it is empty and waiting senders only when it is
      full; at an unbuffered one nobody waits who could meet somebody else. */
  ghost predicate NobodyMissed<T, V>(ch: Chan<T, V>)
  {
    if ch.ring != [] then (ch.arecv != [] ==> ch.n == 0) && (ch.asend != [] ==> ch.n == |ch.ring|)
    else ch.n == 0 && forall e, f :: e in ch.asend && f in ch.arecv ==> e.task == f.task
  }

  ghost predicate WorldInv<C, T, V>(w: World<C, T, V>)
  {
    && QueuesOk(w)
    && (forall c :: c in w.chans ==> Conserves(w.chans[c]) && NobodyMissed(w.chans[c]))
    && (forall t :: t in w.parked ==> t !in w.ready)
  }

  /** altcanexec. */
  predicate CanExec<C(==), T(==), V>(w: World<C, T, V>, a: Alt<C, V>)
    requires a.Nop? || a.c in w.chans
  {
    if a.Nop? then false
    else
      var ch := w.chans[a.c];
      if ch.ring == [] then (if a.Send? then ch.arecv != [] else ch.asend != [])
      else if a.Send? then ch.n < |ch.ring| else ch.n > 0
  }

  function SetChan<C(==), T(==), V>(w: World<C, T, V>, c: C, ch: Chan<T, V>): World<C, T, V>
  {
    w.(chans := w.chans[c := ch])
  }

  /** altalldequeue of task u from its j-th alternative on; nothing stands for an abort. */
  function DequeueAll<C(==), T(==), V>(w: World<C, T, V>, u: T, j: nat): Option<World<C, T, V>>
    requires u in w.parked && j <= |w.parked[u]| && Exists(w, w.parked[u])
    decreases |w.parked[u]| - j
  {
    var alts := w.parked[u];
    if j == |alts| then Some(w)
    else
      match alts[j]
      case Nop => DequeueAll(w, u, j + 1)
      case Send(c, _) =>
        (match Dequeue(w.chans[c].asend, Entry(u, j))
         case None => None
         case Some(q) => DequeueAll(SetChan(w, c, w.chans[c].(asend := q)), u, j + 1))
      case Recv(c, _) =>
        (match Dequeue(w.chans[c].arecv, Entry(u, j))
         case None => None
         case Some(q) => DequeueAll(SetChan(w, c, w.chans[c].(arecv := q)), u, j + 1))
  }

  /** Entries of u below index j are gone from the queue. */
  ghost predicate QueueWithout<T>(q: seq<Entry<T>>, q': seq<Entry<T>>, u: T, j: nat)
  {
    && NoDup(q')
    && (forall e :: e in q' ==> e in q && !(e.task == u && e.index < j))
    && (forall e :: e in q && !(e.task == u && e.index < j) ==> e in q')
  }

  ghost predicate Without<C, T, V>(w: World<C, T, V>, w': World<C, T, V>, u: T, j: nat)
  {
    && w' == w.(chans := w'.chans) && w'.chans.Keys == w.chans.Keys
    && forall c {:trigger ChanWithout(w.chans[c], w'.chans[c], u, j)} :: c in w.chans ==>
         ChanWithout(w.chans[c], w'.chans[c], u, j)
  }

  ghost predicate ChanWithout<T, V>(ch: Chan<T, V>, ch': Chan<T, V>, u: T, j: nat)
  {
    && ch' == ch.(asend := ch'.asend, arecv := ch'.arecv)
    && QueueWithout(ch.asend, ch'.asend, u, j) && QueueWithout(ch.arecv, ch'.arecv, u, j)
  }

  /** One alternative more is gone: from the queue that held it, and from every other, which did not. */
  lemma WithoutOneMore<T>(q: seq<Entry<T>>, q1: seq<Entry<T>>, q2: seq<Entry<T>>, u: T, j: nat)
    requires QueueWithout(q, q1, u, j)
    requires if Entry(u, j) in q then Dequeue(q1, Entry(u, j)) == Some(q2) else q2 == q1
    ensures QueueWithout(q, q2, u, j + 1)
  {
    DequeueExact(q1, Entry(u, j));
    forall e | e in q && !(e.task == u && e.index < j + 1)
      ensures e in q2
    {
      assert e in q1;
    }
    forall e | e in q2
      ensures e in q && !(e.task == u && e.index < j + 1)
    {
      assert e in q1 && e != Entry(u, j);
      assert e.task == u && e.index == j ==> e == Entry(u, j);
    }
  }

  /** The queue of alternative (u, j), taken out of the right queue, and the others as they were. */
  lemma OneDequeued<C, T, V>(w0: World<C, T, V>, w: World<C, T, V>, u: T, j: nat) returns (q: seq<Entry<T>>)
    requires QueuesOk(w0) && Without(w0, w, u, j) && u in w0.parked && j < |w0.parked[u]| && !w0.parked[u][j].Nop?
    ensures w0.parked[u][j].c in w.chans
    ensures var a := w0.parked[u][j]; var ch := w.chans[a.c];
            && Dequeue(if a.Send? then ch.asend else ch.arecv, Entry(u, j)) == Some(q)
            && Without(w0, SetChan(w, a.c, if a.Send? then ch.(asend := q) else ch.(arecv := q)), u, j + 1)
  {
    var a := w0.parked[u][j];
    var c := a.c;
    assert Listed(w0, u, |w0.parked[u]|);
    assert ChanWithout(w0.chans[c], w.chans[c], u, j);
    var ch := w.chans[c];
    DequeueExact(if a.Send? then ch.asend else ch.arecv, Entry(u, j));
    q := Dequeue(if a.Send? then ch.asend else ch.arecv, Entry(u, j)).value;
    var w2 := SetChan(w, c, if a.Send? then ch.(asend := q) else ch.(arecv := q));
    forall d | d in w0.chans
      ensures ChanWithout(w0.chans[d], w2.chans[d], u, j + 1)
    {
      assert ChanWithout(w0.chans[d], w.chans[d], u, j);
      WithoutOneMore(w0.chans[d].asend, w.chans[d].asend, w2.chans[d].asend, u, j);
      WithoutOneMore(w0.chans[d].arecv, w.chans[d].arecv, w2.chans[d].arecv, u, j);
    }
  }

  lemma NopDequeued<C, T, V>(w0: World<C, T, V>, w: World<C, T, V>, u: T, j: nat)
    requires QueuesOk(w0) && Without(w0, w, u, j) && u in w0.parked && j < |w0.parked[u]| && w0.parked[u][j].Nop?
    ensures Without(w0, w, u, j + 1)
  {
    forall d | d in w0.chans
      ensures ChanWithout(w0.chans[d], w.chans[d], u, j + 1)
    {
      assert ChanWithout(w0.chans[d], w.chans[d], u, j);
      WithoutOneMore(w0.chans[d].asend, w.chans[d].asend, w.chans[d].asend, u, j);
      WithoutOneMore(w0.chans[d].arecv, w.chans[d].arecv, w.chans[d].arecv, u, j);
    }
  }

  /** Dequeuing a parked task never aborts, and takes out exactly its entries. */
  lemma {:induction false} DequeueAllExact<C, T, V>(w0: World<C, T, V>, w: World<C, T, V>, u: T, j: nat)
    requires QueuesOk(w0) && Without(w0, w, u, j) && u in w0.parked && j <= |w0.parked[u]|
    ensures Exists(w, w.parked[u])
    ensures DequeueAll(w, u, j).Some? && Without(w0, DequeueAll(w, u, j).value, u, |w0.parked[u]|)
    decreases |w0.parked[u]| - j
  {
    assert Listed(w0, u, |w0.parked[u]|);
    hide Without, QueuesOk, Dequeue;
    assert w.parked == w0.parked && w.chans.Keys == w0.chans.Keys by {
      SameTasks(w0, w, u, j);
    }
    if j < |w0.parked[u]| {
      if w0.parked[u][j].Nop? {
        NopDequeued(w0, w, u, j);
        DequeueAllExact(w0, w, u, j + 1);
      } else {
        var q := OneDequeued(w0, w, u, j);
        var a := w0.parked[u][j];
        var ch := w.chans[a.c];
        DequeueAllExact(w0, SetChan(w, a.c, if a.Send? then ch.(asend := q) else ch.(arecv := q)), u, j + 1);
      }
    }
  }

  lemma SameTasks<C, T, V>(w0: World<C, T, V>, w: World<C, T, V>, u: T, j: nat)
    requires Without(w0, w, u, j)
    ensures w.parked == w0.parked && w.chans.Keys == w0.chans.Keys && w.ready == w0.ready
  {
  }

  lemma WithoutNone<C, T, V>(w: World<C, T, V>, u: T)
    requires QueuesOk(w)
    ensures Without(w, w, u, 0)
  {
    forall c | c in w.chans
      ensures ChanWithout(w.chans[c], w.chans[c], u, 0)
    {
    }
  }

  /** Task u, whose entries are gone, is parked no more. */
  lemma UnparkKeeps<C, T, V>(w: World<C, T, V>, w1: World<C, T, V>, u: T)
    requires QueuesOk(w) && u in w.parked && Without(w, w1, u, |w.parked[u]|)
    ensures QueuesOk(w1.(parked := w1.parked - {u}))
  {
    var w2 := w1.(parked := w1.parked - {u});
    forall c | c in w2.chans
      ensures NoDup(w2.chans[c].asend) && NoDup(w2.chans[c].arecv)
      ensures forall e :: e in w2.chans[c].asend ==> Waits(w2, e, c, true)
      ensures forall e :: e in w2.chans[c].arecv ==> Waits(w2, e, c, false)
    {
      assert ChanWithout(w.chans[c], w1.chans[c], u, |w.parked[u]|);
      forall e | e in w2.chans[c].asend
        ensures Waits(w2, e, c, true)
      {
        assert Waits(w, e, c, true);
      }
      forall e | e in w2.chans[c].arecv
        ensures Waits(w2, e, c, false)
      {
        assert Waits(w, e, c, false);
      }
    }
    forall t | t in w2.parked
      ensures Listed(w2, t, |w2.parked[t]|)
    {
      assert Listed(w, t, |w.parked[t]|);
      forall i | 0 <= i < |w2.parked[t]| && !w2.parked[t][i].Nop?
        ensures var ch := w2.chans[w2.parked[t][i].c];
                if w2.parked[t][i].Send? then Entry(t, i) in ch.asend else Entry(t, i) in ch.arecv
      {
        var c := w2.parked[t][i].c;
        assert ChanWithout(w.chans[c], w1.chans[c], u, |w.parked[u]|);
      }
    }
  }

  // ---------- executing an alternative ----------

  function OtherQueue<C, T, V>(ch: Chan<T, V>, a: Alt<C, V>): seq<Entry<T>>
  {
    if a.Send? then ch.arecv else ch.asend
  }

  /** The value a send moves; nil stands for a zero value. */
  function Value<C, V>(a: Alt<C, V>, zero: V): V
    requires a.Send?
  {
    if a.v.Some? then a.v.value else zero
  }

  /** What a receive stores, if it has room. */
  function Stored<C, V>(a: Alt<C, V>, out: Option<V>): Option<V>
  {
    if a.Recv? && a.keep then out else None
  }

  ghost predicate Executable<C, T, V>(w: World<C, T, V>, a: Alt<C, V>)
  {
    WorldInv(w) && !a.Nop? && a.c in w.chans && CanExec(w, a)
  }

  /** altexec of alternative a of the running task; nothing stands for an abort. With it comes the value
      the running task received. */
  function Exec<C(==), T(==), V>(w: World<C, T, V>, zero: V, a: Alt<C, V>, pick: nat)
    : (r: Option<(World<C, T, V>, Option<V>)>)
    requires Executable(w, a)
  {
    var ch := w.chans[a.c];
    var q := OtherQueue(ch, a);
    CanCopy(w, a);
    if q == [] then
      var (ch1, out) := Copy(ch, if a.Send? then Some(Value(a, zero)) else None, a.Recv?);
      Some((SetChan(w, a.c, ch1), Stored(a, out)))
    else
      PartnerWaits(w, a, pick);
      var e := q[pick % |q|];
      var b := w.parked[e.task][e.index];
      var (ch1, out) := Copy(ch, Some(Value(if a.Send? then a else b, zero)), true);
      var w1 := SetChan(w, a.c, ch1);
      CopiedKeeps(w, a.c, ch1, Some(Value(if a.Send? then a else b, zero)), true);
      WithoutNone(w1, e.task);
      DequeueAllExact(w1, w1, e.task, 0);
      match DequeueAll(w1, e.task, 0)
      case None => None
      case Some(w2) =>
        Some((w2.(parked := w2.parked - {e.task}, ready := w2.ready[e.task := (e.index, Stored(b, out))]),
              Stored(a, out)))
  }

  /** An executable alternative can be copied, with a partner or without. */
  lemma CanCopy<C, T, V>(w: World<C, T, V>, a: Alt<C, V>)
    requires Executable(w, a)
    ensures var ch := w.chans[a.c];
            && RingOk(ch) && CopyOk(ch, true, true)
            && (OtherQueue(ch, a) == [] ==> CopyOk(ch, a.Send?, a.Recv?))
  {
  }

  /** The partner is a parked task whose alternative is the opposite one on the same channel. */
  lemma PartnerWaits<C, T, V>(w: World<C, T, V>, a: Alt<C, V>, pick: nat)
    requires Executable(w, a) && OtherQueue(w.chans[a.c], a) != []
    ensures var q := OtherQueue(w.chans[a.c], a); var e := q[pick % |q|];
            && e.task in w.parked && e.index < |w.parked[e.task]| && Exists(w, w.parked[e.task])
            && IsOn(w.parked[e.task][e.index], a.c, a.Recv?)
  {
    var q := OtherQueue(w.chans[a.c], a);
    var e := q[pick % |q|];
    assert Waits(w, e, a.c, a.Recv?);
    assert Listed(w, e.task, |w.parked[e.task]|);
  }

  /** Copying changes no queue. */
  lemma CopiedKeeps<C, T, V>(w: World<C, T, V>, c: C, ch1: Chan<T, V>, send: Option<V>, recv: bool)
    requires QueuesOk(w) && c in w.chans && Conserves(w.chans[c]) && CopyOk(w.chans[c], send.Some?, recv)
    requires ch1 == Copy(w.chans[c], send, recv).0
    ensures QueuesOk(SetChan(w, c, ch1)) && Conserves(ch1)
  {
    CopyConserves(w.chans[c], send, recv);
    var w1 := SetChan(w, c, ch1);
    assert w1.chans.Keys == w.chans.Keys;
    forall d, e | d in w1.chans && e in w1.chans[d].asend
      ensures Waits(w1, e, d, true)
    {
      assert Waits(w, e, d, true);
    }
    forall d, e | d in w1.chans && e in w1.chans[d].arecv
      ensures Waits(w1, e, d, false)
    {
      assert Waits(w, e, d, false);
    }
    forall t | t in w1.parked
      ensures Listed(w1, t, |w1.parked[t]|)
    {
      assert Listed(w, t, |w.parked[t]|);
    }
  }

  /** Fewer waiting, the same values: still nobody is missed. */
  lemma ShrinkKeeps<T, V>(ch: Chan<T, V>, ch': Chan<T, V>, u: T, j: nat)
    requires ChanWithout(ch, ch', u, j)
    ensures NobodyMissed(ch) ==> NobodyMissed(ch')
    ensures Conserves(ch) ==> Conserves(ch')
  {
    if ch'.asend != [] {
      assert ch'.asend[0] in ch.asend;
    }
    if ch'.arecv != [] {
      assert ch'.arecv[0] in ch.arecv;
    }
  }

  /** Nobody is missed once an executable alternative has been copied with its partner, if any. */
  lemma CopiedMissesNobody<C, T, V>(w: World<C, T, V>, zero: V, a: Alt<C, V>, send: Option<V>, recv: bool)
    requires Executable(w, a)
    requires var ch := w.chans[a.c];
             if OtherQueue(ch, a) == [] then send.Some? == a.Send? && recv == a.Recv? else send.Some? && recv
    ensures var ch := w.chans[a.c];
            RingOk(ch) && CopyOk(ch, send.Some?, recv) && NobodyMissed(Copy(ch, send, recv).0)
  {
    CanCopy(w, a);
    CopyConserves(w.chans[a.c], send, recv);
  }

  /** A parked task taken out of all queues and made ready with its result. */
  lemma UnparkExact<C, T, V>(w: World<C, T, V>, u: T, r: (nat, Option<V>))
    requires WorldInv(w) && u in w.parked
    ensures Exists(w, w.parked[u]) && DequeueAll(w, u, 0).Some?
    ensures var w2 := DequeueAll(w, u, 0).value;
            WorldInv(w2.(parked := w2.parked - {u}, ready := w2.ready[u := r]))
  {
    WithoutNone(w, u);
    DequeueAllExact(w, w, u, 0);
    var w2 := DequeueAll(w, u, 0).value;
    UnparkKeeps(w, w2, u);
    forall c | c in w2.chans
      ensures Conserves(w2.chans[c]) && NobodyMissed(w2.chans[c])
    {
      assert ChanWithout(w.chans[c], w2.chans[c], u, |w.parked[u]|);
      ShrinkKeeps(w.chans[c], w2.chans[c], u, |w.parked[u]|);
    }
    var w3 := w2.(parked := w2.parked - {u}, ready := w2.ready[u := r]);
    ReadyKeeps(w2.(parked := w2.parked - {u}), w2.ready[u := r]);
  }

  /** Results that are ready concern no queue. */
  lemma ReadyKeeps<C, T, V>(w: World<C, T, V>, ready: map<T, (nat, Option<V>)>)
    requires QueuesOk(w)
    ensures QueuesOk(w.(ready := ready))
  {
    var w' := w.(ready := ready);
    forall c, e | c in w'.chans && e in w'.chans[c].asend
      ensures Waits(w', e, c, true)
    {
      assert Waits(w, e, c, true);
    }
    forall c, e | c in w'.chans && e in w'.chans[c].arecv
      ensures Waits(w', e, c, false)
    {
      assert Waits(w, e, c, false);
    }
    forall t | t in w'.parked
      ensures Listed(w', t, |w'.parked[t]|)
    {
      assert Listed(w, t, |w.parked[t]|);
    }
  }

  /** Copying keeps the invariant. */
  lemma CopyKeeps<C, T, V>(w: World<C, T, V>, zero: V, a: Alt<C, V>, send: Option<V>, recv: bool)
    requires Executable(w, a)
    requires var ch := w.chans[a.c];
             if OtherQueue(ch, a) == [] then send.Some? == a.Send? && recv == a.Recv? else send.Some? && recv
    ensures var ch := w.chans[a.c];
            RingOk(ch) && CopyOk(ch, send.Some?, recv) && WorldInv(SetChan(w, a.c, Copy(ch, send, recv).0))
  {
    CopiedMissesNobody(w, zero, a, send, recv);
    CopiedKeeps(w, a.c, Copy(w.chans[a.c], send, recv).0, send, recv);
    hide Copy;
  }

  /** Executing never aborts and keeps the invariant. */
  lemma ExecExact<C, T, V>(w: World<C, T, V>, zero: V, a: Alt<C, V>, pick: nat)
    requires Executable(w, a)
    ensures Exec(w, zero, a, pick).Some?
    ensures WorldInv(Exec(w, zero, a, pick).value.0)
  {
    hide WorldInv, Copy, DequeueAll, CanExec;
    var ch := w.chans[a.c];
    var q := OtherQueue(ch, a);
    if q == [] {
      CopyKeeps(w, zero, a, if a.Send? then Some(Value(a, zero)) else None, a.Recv?);
    } else {
      PartnerWaits(w, a, pick);
      var e := q[pick % |q|];
      var b := w.parked[e.task][e.index];
      var send := Some(Value(if a.Send? then a else b, zero));
      CopyKeeps(w, zero, a, send, true);
      var (ch1, out) := Copy(ch, send, true);
      UnparkExact(SetChan(w, a.c, ch1), e.task, (e.index, Stored(b, out)));
    }
  }

  /** The values a channel holds and has moved, whoever waits at it. */
  ghost predicate SameValues<T, V>(ch: Chan<T, V>, ch': Chan<T, V>)
  {
    ch'.ring == ch.ring && ch'.off == ch.off && ch'.n == ch.n && ch'.sent == ch.sent && ch'.got == ch.got
  }

  /** What executing moves. With a partner waiting, one value is sent and one received, the partner is
      ready with its own index, and each receiver stores the value received last; alone, one value is
      sent or received. No other channel's values change. */
  ghost predicate Moved<C, T, V>(w: World<C, T, V>, w': World<C, T, V>, zero: V, a: Alt<C, V>, pick: nat,
        stored: Option<V>)
    requires !a.Nop? && a.c in w.chans
  {
    var ch := w.chans[a.c];
    var q := OtherQueue(ch, a);
    && w'.chans.Keys == w.chans.Keys
    && (forall c :: c in w.chans && c != a.c ==> SameValues(w.chans[c], w'.chans[c]))
    && var ch' := w'.chans[a.c];
    && (stored == if a.Recv? && a.keep && ch'.got != [] then Some(ch'.got[|ch'.got| - 1]) else None)
    && (q == [] ==>
         && w'.parked == w.parked && w'.ready == w.ready
         && ch'.sent == ch.sent + (if a.Send? then [Value(a, zero)] else [])
         && |ch'.got| == |ch.got| + (if a.Recv? then 1 else 0))
    && (q != [] ==>
         var e := q[pick % |q|];
         && e.task in w.parked && e.index < |w.parked[e.task]| && IsOn(w.parked[e.task][e.index], a.c, a.Recv?)
         && var b := w.parked[e.task][e.index];
         && w'.parked == w.parked - {e.task}
         && ch'.sent == ch.sent + [Value(if a.Send? then a else b, zero)]
         && |ch'.got| == |ch.got| + 1
         && w'.ready == w.ready[e.task :=
                          (e.index, if b.Recv? && b.keep then Some(ch'.got[|ch'.got| - 1]) else None)])
  }

  lemma ExecMoves<C, T, V>(w: World<C, T, V>, zero: V, a: Alt<C, V>, pick: nat)
    requires Executable(w, a)
    ensures Exec(w, zero, a, pick).Some?
    ensures Moved(w, Exec(w, zero, a, pick).value.0, zero, a, pick, Exec(w, zero, a, pick).value.1)
  {
    hide WorldInv, Copy, DequeueAll, CanExec, Conserves;
    var ch := w.chans[a.c];
    var q := OtherQueue(ch, a);
    Consistent(w, a);
    if q == [] {
      var send := if a.Send? then Some(Value(a, zero)) else None;
      CopyKeeps(w, zero, a, send, a.Recv?);
      CopyConserves(ch, send, a.Recv?);
    } else {
      PartnerWaits(w, a, pick);
      var e := q[pick % |q|];
      var b := w.parked[e.task][e.index];
      var send := Some(Value(if a.Send? then a else b, zero));
      CopyKeeps(w, zero, a, send, true);
      CopyConserves(ch, send, true);
      var (ch1, out) := Copy(ch, send, true);
      UnparkValues(SetChan(w, a.c, ch1), e.task, (e.index, Stored(b, out)));
    }
  }

  lemma Consistent<C, T, V>(w: World<C, T, V>, a: Alt<C, V>)
    requires Executable(w, a)
    ensures Conserves(w.chans[a.c])
  {
  }

  lemma UnparkValues<C, T, V>(w: World<C, T, V>, u: T, r: (nat, Option<V>))
    requires WorldInv(w) && u in w.parked
    ensures Exists(w, w.parked[u]) && DequeueAll(w, u, 0).Some?
    ensures var w2 := DequeueAll(w, u, 0).value;
            && w2.parked == w.parked && w2.ready == w.ready && w2.chans.Keys == w.chans.Keys
            && forall c :: c in w.chans ==> SameValues(w.chans[c], w2.chans[c])
  {
    WithoutNone(w, u);
    DequeueAllExact(w, w, u, 0);
    var w2 := DequeueAll(w, u, 0).value;
    forall c | c in w.chans
      ensures SameValues(w.chans[c], w2.chans[c])
    {
      assert ChanWithout(w.chans[c], w2.chans[c], u, |w.parked[u]|);
    }
  }

  // ---------- parking ----------

  /** altqueue of the alternatives of task t from the j-th on. */
  function QueueAll<C(==), T(==), V>(w: World<C, T, V>, t: T, alts: seq<Alt<C, V>>, j: nat): World<C, T, V>
    requires j <= |alts| && Exists(w, alts)
    decreases |alts| - j
  {
    if j == |alts| then w
    else
      match alts[j]
      case Nop => QueueAll(w, t, alts, j + 1)
      case Send(c, _) =>
        QueueAll(SetChan(w, c, w.chans[c].(asend := w.chans[c].asend + [Entry(t, j)])), t, alts, j + 1)
      case Recv(c, _) =>
        QueueAll(SetChan(w, c, w.chans[c].(arecv := w.chans[c].arecv + [Entry(t, j)])), t, alts, j + 1)
  }

  /** The queue has got the entries of t below index j that belong on it, and nothing else. */
  ghost predicate QueueWith<C, T, V>(q: seq<Entry<T>>, q': seq<Entry<T>>, t: T,
        alts: seq<Alt<C, V>>, j: nat, c: C, send: bool)
    requires j <= |alts|
  {
    && NoDup(q')
    && (forall e :: e in q ==> e in q')
    && (forall e :: e in q' ==> e in q || (e.task == t && e.index < j && IsOn(alts[e.index], c, send)))
    && (forall i :: 0 <= i < j && IsOn(alts[i], c, send) ==> Entry(t, i) in q')
  }

  ghost predicate ChanWith<C, T, V>(ch: Chan<T, V>, ch': Chan<T, V>, t: T, alts: seq<Alt<C, V>>, j: nat, c: C)
    requires j <= |alts|
  {
    && ch' == ch.(asend := ch'.asend, arecv := ch'.arecv)
    && QueueWith(ch.asend, ch'.asend, t, alts, j, c, true) && QueueWith(ch.arecv, ch'.arecv, t, alts, j, c, false)
  }

  ghost predicate With<C, T, V>(w: World<C, T, V>, w': World<C, T, V>, t: T, alts: seq<Alt<C, V>>, j: nat)
    requires j <= |alts|
  {
    && w' == w.(chans := w'.chans) && w'.chans.Keys == w.chans.Keys
    && forall c {:trigger ChanWith(w.chans[c], w'.chans[c], t, alts, j, c)} :: c in w.chans ==>
         ChanWith(w.chans[c], w'.chans[c], t, alts, j, c)
  }

  /** No entry of t is in the queue. */
  ghost predicate Absent<T>(q: seq<Entry<T>>, t: T)
  {
    forall e :: e in q ==> e.task != t
  }

  lemma WithOneMore<C, T, V>(q: seq<Entry<T>>, q1: seq<Entry<T>>, q2: seq<Entry<T>>, t: T,
        alts: seq<Alt<C, V>>, j: nat, c: C, send: bool)
    requires j < |alts| && QueueWith(q, q1, t, alts, j, c, send) && Absent(q, t)
    requires q2 == if IsOn(alts[j], c, send) then q1 + [Entry(t, j)] else q1
    ensures QueueWith(q, q2, t, alts, j + 1, c, send)
  {
    if IsOn(alts[j], c, send) {
      assert Entry(t, j) !in q1;
      AppendKeepsNoDup(q1, Entry(t, j));
    }
  }

  lemma {:induction false} QueueAllExact<C, T, V>(w0: World<C, T, V>, w: World<C, T, V>, t: T,
        alts: seq<Alt<C, V>>, j: nat)
    requires j <= |alts| && With(w0, w, t, alts, j) && Exists(w0, alts)
    requires forall c :: c in w0.chans ==> Absent(w0.chans[c].asend, t) && Absent(w0.chans[c].arecv, t)
    ensures Exists(w, alts) && With(w0, QueueAll(w, t, alts, j), t, alts, |alts|)
    decreases |alts| - j
  {
    if j < |alts| {
      var a := alts[j];
      var w1 := w;
      if !a.Nop? {
        var ch := w.chans[a.c];
        w1 := SetChan(w, a.c, if a.Send? then ch.(asend := ch.asend + [Entry(t, j)])
                              else ch.(arecv := ch.arecv + [Entry(t, j)]));
      }
      OneQueued(w0, w, w1, t, alts, j);
      hide With;
      QueueAllExact(w0, w1, t, alts, j + 1);
    }
  }

  lemma OneQueued<C, T, V>(w0: World<C, T, V>, w: World<C, T, V>, w1: World<C, T, V>, t: T,
        alts: seq<Alt<C, V>>, j: nat)
    requires j < |alts| && With(w0, w, t, alts, j) && Exists(w, alts)
    requires forall c :: c in w0.chans ==> Absent(w0.chans[c].asend, t) && Absent(w0.chans[c].arecv, t)
    requires var a := alts[j];
             if a.Nop? then w1 == w
             else w1 == SetChan(w, a.c, if a.Send? then w.chans[a.c].(asend := w.chans[a.c].asend + [Entry(t, j)])
                                        else w.chans[a.c].(arecv := w.chans[a.c].arecv + [Entry(t, j)]))
    ensures With(w0, w1, t, alts, j + 1)
  {
    forall c | c in w0.chans
      ensures ChanWith(w0.chans[c], w1.chans[c], t, alts, j + 1, c)
    {
      assert ChanWith(w0.chans[c], w.chans[c], t, alts, j, c);
      WithOneMore(w0.chans[c].asend, w.chans[c].asend, w1.chans[c].asend, t, alts, j, c, true);
      WithOneMore(w0.chans[c].arecv, w.chans[c].arecv, w1.chans[c].arecv, t, alts, j, c, false);
    }
  }

  function Park<C(==), T(==), V>(w: World<C, T, V>, t: T, alts: seq<Alt<C, V>>): World<C, T, V>
    requires Exists(w, alts)
  {
    var w1 := QueueAll(w, t, alts, 0);
    w1.(parked := w1.parked[t := alts])
  }

  /** Nothing of the running task is queued. */
  lemma RunningIsAbsent<C, T, V>(w: World<C, T, V>, t: T)
    requires QueuesOk(w) && t !in w.parked
    ensures forall c :: c in w.chans ==> Absent(w.chans[c].asend, t) && Absent(w.chans[c].arecv, t)
  {
    forall c | c in w.chans
      ensures Absent(w.chans[c].asend, t) && Absent(w.chans[c].arecv, t)
    {
      forall e | e in w.chans[c].asend
        ensures e.task != t
      {
        assert Waits(w, e, c, true);
      }
      forall e | e in w.chans[c].arecv
        ensures e.task != t
      {
        assert Waits(w, e, c, false);
      }
    }
  }

  lemma ParkQueues<C, T, V>(w: World<C, T, V>, w1: World<C, T, V>, t: T, alts: seq<Alt<C, V>>)
    requires QueuesOk(w) && t !in w.parked && Exists(w, alts) && With(w, w1, t, alts, |alts|)
    ensures QueuesOk(w1.(parked := w1.parked[t := alts]))
  {
    var w2 := w1.(parked := w1.parked[t := alts]);
    forall c | c in w2.chans
      ensures NoDup(w2.chans[c].asend) && NoDup(w2.chans[c].arecv)
      ensures forall e :: e in w2.chans[c].asend ==> Waits(w2, e, c, true)
      ensures forall e :: e in w2.chans[c].arecv ==> Waits(w2, e, c, false)
    {
      assert ChanWith(w.chans[c], w1.chans[c], t, alts, |alts|, c);
      forall e | e in w2.chans[c].asend
        ensures Waits(w2, e, c, true)
      {
        if e in w.chans[c].asend {
          assert Waits(w, e, c, true);
        }
      }
      forall e | e in w2.chans[c].arecv
        ensures Waits(w2, e, c, false)
      {
        if e in w.chans[c].arecv {
          assert Waits(w, e, c, false);
        }
      }
    }
    forall u | u in w2.parked
      ensures Listed(w2, u, |w2.parked[u]|)
    {
      if u != t {
        assert Listed(w, u, |w.parked[u]|);
      }
      forall i | 0 <= i < |w2.parked[u]| && !w2.parked[u][i].Nop?
        ensures var ch := w2.chans[w2.parked[u][i].c];
                if w2.parked[u][i].Send? then Entry(u, i) in ch.asend else Entry(u, i) in ch.arecv
      {
        var c := w2.parked[u][i].c;
        assert ChanWith(w.chans[c], w1.chans[c], t, alts, |alts|, c);
        if u == t {
          assert IsOn(alts[i], c, alts[i].Send?);
        }
      }
    }
  }

  /** A channel at which nothing the newcomer wants can be executed still misses nobody with it queued. */
  lemma ParkMissesNobody<C, T, V>(w: World<C, T, V>, w1: World<C, T, V>, t: T, alts: seq<Alt<C, V>>, c: C)
    requires WorldInv(w) && Exists(w, alts) && With(w, w1, t, alts, |alts|) && c in w.chans
    requires forall i :: 0 <= i < |alts| ==> !CanExec(w, alts[i])
    ensures Conserves(w1.chans[c]) && NobodyMissed(w1.chans[c])
  {
    var ch, ch1 := w.chans[c], w1.chans[c];
    assert ChanWith(ch, ch1, t, alts, |alts|, c);
    assert forall i :: 0 <= i < |alts| && (IsOn(alts[i], c, true) || IsOn(alts[i], c, false)) ==> !CanExec(w, alts[i]);
    if ch.ring != [] {
      if ch1.asend != [] {
        assert ch1.asend[0] in ch1.asend;
      }
      if ch1.arecv != [] {
        assert ch1.arecv[0] in ch1.arecv;
      }
    }
  }

  /** A task none of whose alternatives can be executed parks without breaking anything. */
  lemma ParkExact<C, T, V>(w: World<C, T, V>, t: T, alts: seq<Alt<C, V>>)
    requires WorldInv(w) && t !in w.parked && t !in w.ready && Exists(w, alts)
    requires forall i :: 0 <= i < |alts| ==> !CanExec(w, alts[i])
    ensures WorldInv(Park(w, t, alts))
  {
    RunningIsAbsent(w, t);
    WithNone(w, t, alts);
    QueueAllExact(w, w, t, alts, 0);
    var w1 := QueueAll(w, t, alts, 0);
    ParkQueues(w, w1, t, alts);
    forall c | c in w1.chans
      ensures Conserves(w1.chans[c]) && NobodyMissed(w1.chans[c])
    {
      ParkMissesNobody(w, w1, t, alts, c);
    }
    hide With, QueuesOk;
    WithTasks(w, w1, t, alts, |alts|);
  }

  lemma WithNone<C, T, V>(w: World<C, T, V>, t: T, alts: seq<Alt<C, V>>)
    requires QueuesOk(w)
    ensures With(w, w, t, alts, 0)
  {
    forall c | c in w.chans
      ensures ChanWith(w.chans[c], w.chans[c], t, alts, 0, c)
    {
    }
  }

  lemma WithTasks<C, T, V>(w: World<C, T, V>, w1: World<C, T, V>, t: T, alts: seq<Alt<C, V>>, j: nat)
    requires j <= |alts| && With(w, w1, t, alts, j)
    ensures w1.parked == w.parked && w1.ready == w.ready && w1.chans.Keys == w.chans.Keys
  {
  }

  // ---------- chanalt ----------

  /** What a call of chanalt does to its caller. */
  datatype Outcome<V> =
    | Ran(index: nat, stored: Option<V>)   // returned at once
    | WouldBlock                           // -1
    | Parked
    | Aborted

  /** chanalt by task t. `i` is the alternative the dice pick among the executable ones, `pick` the partner. */
  function ChanAlt<C(==), T(==), V>(w: World<C, T, V>, zero: V, t: T, alts: seq<Alt<C, V>>, canBlock: bool,
        i: nat, pick: nat)
    : (r: (World<C, T, V>, Outcome<V>))
    requires CallOk(w, t, alts, i)
  {
    if i < |alts| then
      match Exec(w, zero, alts[i], pick)
      case None => (w, Aborted)
      case Some((w1, stored)) => (w1, Ran(i, stored))
    else if canBlock then (Park(w, t, alts), Parked)
    else (w, WouldBlock)
  }

  /** The task runs, its channels exist, and i is an executable alternative, or the end if there is none. */
  ghost predicate CallOk<C, T, V>(w: World<C, T, V>, t: T, alts: seq<Alt<C, V>>, i: nat)
  {
    && WorldInv(w) && t !in w.parked && t !in w.ready && Exists(w, alts)
    && (if i < |alts| then CanExec(w, alts[i]) else forall k :: 0 <= k < |alts| ==> !CanExec(w, alts[k]))
  }

  /** The task is parked: each of its alternatives is in the queue of its side of its channel, and nothing
      else has changed. */
  ghost predicate ParkedOnAll<C, T, V>(w: World<C, T, V>, w': World<C, T, V>, t: T, alts: seq<Alt<C, V>>)
  {
    w'.parked == w.parked[t := alts] && With(w, w'.(parked := w.parked), t, alts, |alts|)
  }

  lemma ParkParks<C, T, V>(w: World<C, T, V>, t: T, alts: seq<Alt<C, V>>)
    requires WorldInv(w) && t !in w.parked && Exists(w, alts)
    ensures ParkedOnAll(w, Park(w, t, alts), t, alts)
  {
    RunningIsAbsent(w, t);
    WithNone(w, t, alts);
    QueueAllExact(w, w, t, alts, 0);
    var w1 := QueueAll(w, t, alts, 0);
    hide WorldInv, QueuesOk, With, QueueAll;
    WithTasks(w, w1, t, alts, |alts|);
    assert Park(w, t, alts).(parked := w.parked) == w1;
  }

  /** What a call does: the picked alternative runs, if there is one; else the task parks when it may block,
      and nothing happens when it may not. */
  ghost predicate CallDoes<C, T, V>(w: World<C, T, V>, w': World<C, T, V>, zero: V, t: T, alts: seq<Alt<C, V>>,
        canBlock: bool, i: nat, pick: nat, o: Outcome<V>)
  {
    if i < |alts| then
      && !alts[i].Nop? && alts[i].c in w.chans
      && o.Ran? && o.index == i && Moved(w, w', zero, alts[i], pick, o.stored)
    else if canBlock then o == Parked && ParkedOnAll(w, w', t, alts)
    else o == WouldBlock && w' == w
  }

  lemma ChanAltDoes<C, T, V>(w: World<C, T, V>, zero: V, t: T, alts: seq<Alt<C, V>>, canBlock: bool, i: nat, pick: nat)
    requires CallOk(w, t, alts, i)
    ensures var (w', o) := ChanAlt(w, zero, t, alts, canBlock, i, pick);
            CallDoes(w, w', zero, t, alts, canBlock, i, pick, o)
  {
    hide WorldInv, Exec, Park, Moved, ParkedOnAll;
    if i < |alts| {
      ExecMoves(w, zero, alts[i], pick);
    } else if canBlock {
      ParkParks(w, t, alts);
    }
  }

  /** No call aborts, and every call keeps the invariant. */
  lemma ChanAltExact<C, T, V>(w: World<C, T, V>, zero: V, t: T, alts: seq<Alt<C, V>>, canBlock: bool, i: nat, pick: nat)
    requires CallOk(w, t, alts, i)
    ensures var (w', o) := ChanAlt(w, zero, t, alts, canBlock, i, pick);
            o != Aborted && WorldInv(w')
  {
    hide WorldInv, Exec, Park;
    if i < |alts| {
      ExecExact(w, zero, alts[i], pick);
    } else if canBlock {
      ParkExact(w, t, alts);
    }
  }

  // ---------- runs ----------

  /** A call, or the return of a call that another task finished. */
  datatype Event<C, T, V> =
    | Call(task: T, alts: seq<Alt<C, V>>, canBlock: bool, i: nat, pick: nat)
    | Return(task: T)

  ghost predicate Enabled<C, T, V>(w: World<C, T, V>, e: Event<C, T, V>)
  {
    match e
    case Call(t, alts, _, i, _) => CallOk(w, t, alts, i)
    case Return(t) => t in w.ready
  }

  function Step<C(==), T(==), V>(w: World<C, T, V>, zero: V, e: Event<C, T, V>): (World<C, T, V>, Outcome<V>)
    requires Enabled(w, e)
  {
    match e
    case Call(t, alts, canBlock, i, pick) => ChanAlt(w, zero, t, alts, canBlock, i, pick)
    case Return(t) => (w.(ready := w.ready - {t}), Ran(w.ready[t].0, w.ready[t].1))
  }

  lemma StepExact<C, T, V>(w: World<C, T, V>, zero: V, e: Event<C, T, V>)
    requires WorldInv(w) && Enabled(w, e)
    ensures WorldInv(Step(w, zero, e).0) && Step(w, zero, e).1 != Aborted
  {
    match e
    case Call(t, alts, canBlock, i, pick) => ChanAltExact(w, zero, t, alts, canBlock, i, pick);
    case Return(t) => ReadyKeeps(w, w.ready - {t});
  }

  ghost predicate ValidRun<C, T, V>(w: World<C, T, V>, zero: V, es: seq<Event<C, T, V>>)
    decreases |es|
  {
    es == [] || (WorldInv(w) && Enabled(w, es[0]) && ValidRun(Step(w, zero, es[0]).0, zero, es[1..]))
  }

  ghost function Final<C, T, V>(w: World<C, T, V>, zero: V, es: seq<Event<C, T, V>>): World<C, T, V>
    requires ValidRun(w, zero, es)
    decreases |es|
  {
    if es == [] then w else Final(Step(w, zero, es[0]).0, zero, es[1..])
  }

  /** Channels just created, and nobody parked. */
  ghost predicate Initial<C, T, V>(w: World<C, T, V>)
  {
    && w.parked == map[] && w.ready == map[]
    && forall c :: c in w.chans ==> w.chans[c] == Chan(w.chans[c].ring, 0, 0, [], [], [], [])
  }

  lemma {:induction false} RunKeeps<C, T, V>(w: World<C, T, V>, zero: V, es: seq<Event<C, T, V>>)
    requires WorldInv(w) && ValidRun(w, zero, es)
    ensures WorldInv(Final(w, zero, es))
    decreases |es|
  {
    if es != [] {
      StepExact(w, zero, es[0]);
      hide WorldInv, Step, Enabled;
      RunKeeps(Step(w, zero, es[0]).0, zero, es[1..]);
    }
  }

  lemma InitialOk<C, T, V>(w: World<C, T, V>)
    requires Initial(w)
    ensures WorldInv(w)
  {
    forall c | c in w.chans
      ensures Conserves(w.chans[c])
    {
      assert Contents(w.chans[c]) == [];
    }
  }

  /** In every reachable state and for every channel: what was sent is what was received and then the
      buffer, in order; waiting receivers of a buffered channel mean an empty buffer and waiting senders
      a full one; and only parked tasks are queued, each alternative once, so that a finished call has
      left nothing behind and no altdequeue aborts. */
  lemma EveryReachableWorld<C, T, V>(w0: World<C, T, V>, zero: V, es: seq<Event<C, T, V>>, c: C)
    requires Initial(w0) && ValidRun(w0, zero, es) && c in Final(w0, zero, es).chans
    ensures var w := Final(w0, zero, es); var ch := w.chans[c];
            && RingOk(ch) && ch.sent == ch.got + Contents(ch)
            && (ch.ring != [] && ch.arecv != [] ==> Contents(ch) == [])
            && (ch.ring != [] && ch.asend != [] ==> |Contents(ch)| == |ch.ring|)
            && (ch.ring == [] ==> forall e, f :: e in ch.asend && f in ch.arecv ==> e.task == f.task)
            && NoDup(ch.asend) && NoDup(ch.arecv)
            && (forall e :: e in ch.asend <==> Waits(w, e, c, true))
            && (forall e :: e in ch.arecv <==> Waits(w, e, c, false))
            && (forall e :: Enabled(w, e) ==> Step(w, zero, e).1 != Aborted)
  {
    InitialOk(w0);
    RunKeeps(w0, zero, es);
    var w := Final(w0, zero, es);
    forall e | Enabled(w, e)
      ensures Step(w, zero, e).1 != Aborted
    {
      StepExact(w, zero, e);
    }
    WaitersAreQueued(w, c);
    hide Step, Enabled, Final, ValidRun;
  }

  lemma WaitersAreQueued<C, T, V>(w: World<C, T, V>, c: C)
    requires QueuesOk(w) && c in w.chans
    ensures forall e :: e in w.chans[c].asend <==> Waits(w, e, c, true)
    ensures forall e :: e in w.chans[c].arecv <==> Waits(w, e, c, false)
  {
    forall e | Waits(w, e, c, true) || Waits(w, e, c, false)
      ensures Waits(w, e, c, true) ==> e in w.chans[c].asend
      ensures Waits(w, e, c, false) ==> e in w.chans[c].arecv
    {
      assert Listed(w, e.task, |w.parked[e.task]|);
      assert e == Entry(e.task, e.index);
    }
  }
}
