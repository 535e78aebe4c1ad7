/** stlib/tests/ucontext/channel.c as objects: channels with their ring buffer and arrays of waiting
    alternatives changed in place, and chanalt over them. */
module Channels {
  import opened Queues
  import opened ChannelModel

  class Channel<T(==), V(==)> {
    const buf: array<V>
    var nbuf: nat
    var off: nat
    var asend: seq<Entry<T>>
    var arecv: seq<Entry<T>>
    ghost var sent: seq<V>
    ghost var got: seq<V>

    constructor (size: nat, zero: V)
      ensures fresh(buf) && buf.Length == size && RingOk(View())
      ensures View() == Chan(buf[..], 0, 0, [], [], [], [])
    {
      buf := new V[size](_ => zero);
      nbuf, off, asend, arecv, sent, got := 0, 0, [], [], [], [];
    }

    ghost function View(): Chan<T, V>
      reads this, buf
    {
      Chan(buf[..], off, nbuf, asend, arecv, sent, got)
    }

    /** altcopy with both players, or one, as the channel's state allows. */
    method AltCopy(send: Option<V>, recv: bool) returns (out: Option<V>)
      requires RingOk(View()) && CopyOk(View(), send.Some?, recv)
      modifies this, buf
      ensures (View(), out) == Copy(old(View()), send, recv)
    {
      out := None;
      if send.Some? && recv && nbuf == 0 {
        sent, got := sent + [send.value], got + [send.value];
        return send;
      }
      if recv {
        var v := buf[off];
        out := Some(v);
        nbuf := nbuf - 1;
        off := off + 1;
        if off == buf.Length {
          off := 0;
        }
        got := got + [v];
      }
      if send.Some? {
        buf[(off + nbuf) % buf.Length] := send.value;
        nbuf := nbuf + 1;
        sent := sent + [send.value];
      }
    }

    /** addarray through altqueue. */
    method AltQueue(send: bool, e: Entry<T>)
      modifies `asend, `arecv
      ensures View() == if send then old(View()).(asend := old(asend) + [e])
                        else old(View()).(arecv := old(arecv) + [e])
    {
      if send {
        asend := asend + [e];
      } else {
        arecv := arecv + [e];
      }
    }

    /** The search and the delarray of altdequeue; false where it would abort. */
    method AltDequeue(send: bool, e: Entry<T>) returns (ok: bool)
      modifies `asend, `arecv
      ensures var d := Dequeue(if send then old(asend) else old(arecv), e);
              && ok == d.Some?
              && View() == if !ok then old(View()) else if send then old(View()).(asend := d.value)
                           else old(View()).(arecv := d.value)
    {
      var ar := if send then asend else arecv;
      var i := 0;
      while i < |ar|
        invariant 0 <= i <= |ar| && Find(ar, e, i) == Find(ar, e, 0)
      {
        if ar[i] == e {
          if send {
            asend := DelAt(ar, i);
          } else {
            arecv := DelAt(ar, i);
          }
          return true;
        }
        i := i + 1;
      }
      return false;
    }
  }

  class Tasks<T(==), V(==)> {
    ghost var channels: set<Channel<T, V>>
    var parked: map<T, seq<Alt<Channel<T, V>, V>>>
    var ready: map<T, (nat, Option<V>)>

    constructor (ghost channels: set<Channel<T, V>>)
      requires forall c, d :: c in channels && d in channels && c != d ==> c.buf != d.buf
      requires forall c :: c in channels ==> c.View() == Chan(c.buf[..], 0, 0, [], [], [], [])
      ensures Valid() && this.channels == channels && Initial(View())
    {
      this.channels, parked, ready := channels, map[], map[];
    }

    ghost function Buffers(): set<array<V>>
      reads `channels
    {
      set c | c in channels :: c.buf
    }

    /** No two channels share a buffer. */
    ghost predicate Valid()
      reads `channels
    {
      forall c, d :: c in channels && d in channels && c != d ==> c.buf != d.buf
    }

    ghost function Chans(): (m: map<Channel<T, V>, Chan<T, V>>)
      reads `channels, channels, Buffers()
      ensures m.Keys == channels && forall c :: c in channels ==> m[c] == c.View()
    {
      map c | c in channels :: c.View()
    }

    ghost function View(): World<Channel<T, V>, T, V>
      reads this, channels, Buffers()
    {
      World(Chans(), parked, ready)
    }

    /** Only channel c differs. */
    twostate lemma OneChannel(c: Channel<T, V>)
      requires Valid() && unchanged(this) && c in channels
      requires forall d :: d in channels && d != c ==> d.View() == old(d.View())
      ensures View() == SetChan(old(View()), c, c.View())
    {
      assert Chans() == old(Chans())[c := c.View()];
    }

    function AltCanExec(a: Alt<Channel<T, V>, V>): bool
      reads if a.Nop? then {} else {a.c}
    {
      match a
      case Nop => false
      case Send(c, _) => if c.buf.Length == 0 then c.arecv != [] else c.nbuf < c.buf.Length
      case Recv(c, _) => if c.buf.Length == 0 then c.asend != [] else c.nbuf > 0
    }

    lemma AltCanExecIs(a: Alt<Channel<T, V>, V>)
      requires a.Nop? || a.c in channels
      ensures AltCanExec(a) == CanExec(View(), a)
    {
    }

    /** altalldequeue; false where it would abort. */
    method AltAllDequeue(u: T) returns (ok: bool)
      requires Valid() && u in parked && Exists(View(), parked[u])
      modifies channels`asend, channels`arecv
      ensures ok <==> DequeueAll(old(View()), u, 0).Some?
      ensures ok ==> View() == DequeueAll(old(View()), u, 0).value
    {
      hide View;
      Same();
      var alts := parked[u];
      var j := 0;
      while j < |alts|
        invariant 0 <= j <= |alts| && Valid() && View().parked == parked && View().chans.Keys == channels
        invariant Exists(View(), alts)
        invariant DequeueAll(View(), u, j) == DequeueAll(old(View()), u, 0)
      {
        if !alts[j].Nop? {
          var c := alts[j].c;
          Same();
          ghost var w := View();
          label L:
          ok := c.AltDequeue(alts[j].Send?, Entry(u, j));
          OneChannel@L(c);
          Same();
          if !ok {
            return;
          }
        }
        j := j + 1;
      }
      return true;
    }

    lemma Same()
      ensures View().chans.Keys == channels && View().parked == parked && View().ready == ready
      ensures forall c :: c in channels ==> View().chans[c] == c.View()
    {
    }

    /** altcopy on one of the channels. */
    method CopyOn(c: Channel<T, V>, send: Option<V>, recv: bool) returns (out: Option<V>)
      requires Valid() && c in channels && RingOk(c.View()) && CopyOk(c.View(), send.Some?, recv)
      modifies c, c.buf
      ensures var (ch, o) := Copy(old(c.View()), send, recv);
              out == o && View() == SetChan(old(View()), c, ch)
    {
      hide View, Copy;
      out := c.AltCopy(send, recv);
      OneChannel(c);
    }

    /** altexec of an executable alternative. */
    method AltExec(zero: V, a: Alt<Channel<T, V>, V>, pick: nat) returns (ok: bool, stored: Option<V>)
      requires Valid() && Executable(View(), a) && a.c in channels
      modifies this, channels, Buffers()
      ensures Valid() && channels == old(channels)
      ensures ok <==> Exec(old(View()), zero, a, pick).Some?
      ensures ok ==> (View(), stored) == Exec(old(View()), zero, a, pick).value
    {
      Same();
      Prepared(zero, a, pick);
      hide View, Executable, Copy, DequeueAll, WorldInv;
      var c := a.c;
      var ar := if a.Send? then c.arecv else c.asend;
      var out: Option<V>;
      if ar != [] {
        var other := ar[pick % |ar|];
        var b := parked[other.task][other.index];
        out := CopyOn(c, Some(Value(if a.Send? then a else b, zero)), true);
        ok := MakeReady(other.task, (other.index, Stored(b, out)));
        if !ok {
          return false, None;
        }
      } else {
        out := CopyOn(c, if a.Send? then Some(Value(a, zero)) else None, a.Recv?);
      }
      return true, Stored(a, out);
    }

    /** altalldequeue of a parked task, and taskready. */
    method MakeReady(u: T, r: (nat, Option<V>)) returns (ok: bool)
      requires Valid() && u in View().parked && Exists(View(), View().parked[u])
      modifies this, channels`asend, channels`arecv
      ensures Valid() && channels == old(channels)
      ensures ok <==> DequeueAll(old(View()), u, 0).Some?
      ensures ok ==> var w := DequeueAll(old(View()), u, 0).value;
                View() == w.(parked := w.parked - {u}, ready := w.ready[u := r])
    {
      Same();
      hide View, DequeueAll;
      ok := AltAllDequeue(u);
      if ok {
        Same();
        ghost var w := View();
        parked := parked - {u};
        ready := ready[u := r];
        TasksChanged(w);
      }
    }

    lemma TasksChanged(w: World<Channel<T, V>, T, V>)
      requires w.chans == Chans()
      ensures View() == w.(parked := parked, ready := ready)
    {
    }

    /** What altexec relies on. */
    lemma Prepared(zero: V, a: Alt<Channel<T, V>, V>, pick: nat)
      requires Executable(View(), a)
      ensures var ch := View().chans[a.c];
              RingOk(ch) && CopyOk(ch, true, true) && (OtherQueue(ch, a) == [] ==> CopyOk(ch, a.Send?, a.Recv?))
      ensures var q := OtherQueue(View().chans[a.c], a);
              q != [] ==> var e := q[pick % |q|];
                && e.task in View().parked && e.index < |View().parked[e.task]|
                && Exists(View(), View().parked[e.task]) && IsOn(View().parked[e.task][e.index], a.c, a.Recv?)
    {
      CanCopy(View(), a);
      if OtherQueue(View().chans[a.c], a) != [] {
        PartnerWaits(View(), a, pick);
      }
    }

    /** altqueue of all alternatives of a task. */
    method QueueThem(t: T, alts: seq<Alt<Channel<T, V>, V>>)
      requires Valid() && Exists(View(), alts)
      modifies channels`asend, channels`arecv
      ensures View() == QueueAll(old(View()), t, alts, 0)
    {
      hide View;
      Same();
      var i := 0;
      while i < |alts|
        invariant 0 <= i <= |alts| && View().chans.Keys == channels && Exists(View(), alts)
        invariant QueueAll(View(), t, alts, i) == QueueAll(old(View()), t, alts, 0)
      {
        if !alts[i].Nop? {
          var c := alts[i].c;
          Same();
          label L:
          c.AltQueue(alts[i].Send?, Entry(t, i));
          OneChannel@L(c);
          Same();
        }
        i := i + 1;
      }
    }

    /** How many of the first k alternatives can be executed. */
    ghost function Executables(w: World<Channel<T, V>, T, V>, alts: seq<Alt<Channel<T, V>, V>>, k: nat): nat
      requires k <= |alts| && Exists(w, alts)
    {
      if k == 0 then 0 else Executables(w, alts, k - 1) + if CanExec(w, alts[k - 1]) then 1 else 0
    }

    /** The alternative i is the executable one with die mod count executable ones before it, or the end
        of the list when none can be executed. */
    ghost predicate Picked(w: World<Channel<T, V>, T, V>, alts: seq<Alt<Channel<T, V>, V>>, die: nat, i: nat)
      requires Exists(w, alts)
    {
      var count := Executables(w, alts, |alts|);
      if count > 0 then i < |alts| && CanExec(w, alts[i]) && Executables(w, alts, i) == die % count
      else i == |alts| && forall k :: 0 <= k < |alts| ==> !CanExec(w, alts[k])
    }

    /** The two passes of chanalt over its alternatives. */
    method PickOne(alts: seq<Alt<Channel<T, V>, V>>, die: nat) returns (i: nat)
      requires Exists(View(), alts)
      ensures Picked(View(), alts, die, i)
    {
      ghost var w := View();
      Same();
      hide View, CanExec;
      var ncan, k := 0, 0;
      while k < |alts|
        invariant View() == w && 0 <= k <= |alts| && ncan == Executables(w, alts, k)
        invariant ncan == 0 ==> forall j :: 0 <= j < k ==> !CanExec(w, alts[j])
      {
        AltCanExecIs(alts[k]);
        if AltCanExec(alts[k]) {
          ncan := ncan + 1;
        }
        k := k + 1;
      }
      if ncan == 0 {
        return |alts|;
      }
      var j := die % ncan;
      i := 0;
      while i < |alts|
        invariant View() == w && 0 <= i <= |alts| && j >= 0 && j + Executables(w, alts, i) == die % ncan
      {
        AltCanExecIs(alts[i]);
        if AltCanExec(alts[i]) {
          if j == 0 {
            return;
          }
          j := j - 1;
        }
        i := i + 1;
      }
    }

    /** chanalt of the running task t: an executable alternative chosen by the die is executed, or the
        task parks in all the queues, or nothing happens. */
    method ChanAlt(zero: V, t: T, alts: seq<Alt<Channel<T, V>, V>>, canBlock: bool, die: nat, pick: nat)
      returns (o: Outcome<V>, ghost i: nat)
      requires Valid() && WorldInv(View()) && t !in parked && t !in ready && Exists(View(), alts)
      modifies this, channels, Buffers()
      ensures Valid() && channels == old(channels) && WorldInv(View()) && o != Aborted
      ensures Picked(old(View()), alts, die, i)
      ensures CallOk(old(View()), t, alts, i)
      ensures (View(), o) == ChannelModel.ChanAlt(old(View()), zero, t, alts, canBlock, i, pick)
      ensures i < |alts| <==> exists k :: 0 <= k < |alts| && CanExec(old(View()), alts[k])
      ensures CallDoes(old(View()), View(), zero, t, alts, canBlock, i, pick, o)
    {
      hide View, WorldInv, CanExec, Exec, QueueAll, Picked, CallOk, Executable, Valid;
      var n := PickOne(alts, die);
      i := n;
      CallReady(t, alts, die, n);
      ChanAltExact(View(), zero, t, alts, canBlock, n, pick);
      ChanAltDoes(View(), zero, t, alts, canBlock, n, pick);
      if n < |alts| {
        var ok, stored := AltExec(zero, alts[n], pick);
        return (if ok then Ran(n, stored) else Aborted), i;
      }
      if !canBlock {
        return WouldBlock, i;
      }
      ParkNow(t, alts);
      return Outcome.Parked, i;
    }

    /** The task is in all its queues and stops running. */
    method ParkNow(t: T, alts: seq<Alt<Channel<T, V>, V>>)
      requires Valid() && Exists(View(), alts)
      modifies this, channels`asend, channels`arecv
      ensures Valid() && channels == old(channels) && View() == Park(old(View()), t, alts)
    {
      hide View, QueueAll;
      QueueThem(t, alts);
      ghost var w := View();
      Same();
      parked := parked[t := alts];
      TasksChanged(w);
    }

    /** The rest of chanalt once a parked task runs again: it returns the alternative that another task
        executed for it, and can call again. */
    method Resume(ghost zero: V, t: T) returns (i: nat, stored: Option<V>)
      requires Valid() && WorldInv(View()) && t in ready
      modifies `ready
      ensures Valid() && WorldInv(View()) && t !in parked && t !in ready
      ensures (i, stored) == old(ready)[t] && View() == old(View()).(ready := old(ready) - {t})
      ensures Enabled(old(View()), Return(t)) && (View(), Ran(i, stored)) == Step(old(View()), zero, Return(t))
    {
      ghost var w := View();
      StepExact(w, zero, Return(t));
      i, stored := ready[t].0, ready[t].1;
      ready := ready - {t};
      TasksChanged(w);
    }

    lemma CallReady(t: T, alts: seq<Alt<Channel<T, V>, V>>, die: nat, i: nat)
      requires WorldInv(View()) && t !in parked && t !in ready && Exists(View(), alts) && Picked(View(), alts, die, i)
      ensures CallOk(View(), t, alts, i)
      ensures i < |alts| <==> exists k :: 0 <= k < |alts| && CanExec(View(), alts[k])
      ensures i < |alts| ==> Executable(View(), alts[i]) && alts[i].c in channels
    {
    }
  }
}
