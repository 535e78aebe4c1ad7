/** StThreadSchedule of src/st_thread.cc on plain values. T names a coroutine. */
module SchedModel {
  import opened HeapModel
  import opened Queues

  /** Which of the scheduler's intrusive queues m_next_ links a coroutine into. */
  datatype Link = Unlinked | InRun | InIo | InPend | InReclaim

  datatype Kind = Normal | Primordial | Daemon | SubThread

  /** One coroutine: the bits of m_flag_, the link, the wakeup time, the sticky notification, the
      type and the place in the tree of sub-threads. */
  datatype Rec<T> = Rec(
    ioFlag: bool, sleepFlag: bool, runFlag: bool, pendFlag: bool, subFlag: bool,
    link: Link, wakeup: int, notified: bool, kind: Kind,
    parent: Option<T>, subs: seq<T>)

  /** The scheduler, the sleep heap with its capacity, and the pool of idle coroutines. */
  datatype Sched<T(==)> = Sched(
    run: seq<T>, io: seq<T>, pend: seq<T>, reclaim: seq<T>,
    heap: seq<Node<T>>, cap: nat,
    th: map<T, Rec<T>>, active: T, daemon: T, primo: T,
    idle: seq<T>, maxFree: nat, total: nat)

  // ---------- intrusive queues ----------

  function QueueOf<T(==)>(s: Sched<T>, l: Link): seq<T>
    requires l != Unlinked
  {
    match l
    case InRun => s.run
    case InIo => s.io
    case InPend => s.pend
    case InReclaim => s.reclaim
  }

  function WithQueue<T(==)>(s: Sched<T>, l: Link, q: seq<T>): Sched<T>
    requires l != Unlinked
  {
    match l
    case InRun => s.(run := q)
    case InIo => s.(io := q)
    case InPend => s.(pend := q)
    case InReclaim => s.(reclaim := q)
  }

  function SetRec<T(==)>(s: Sched<T>, t: T, r: Rec<T>): Sched<T>
  {
    s.(th := s.th[t := r])
  }

  /** CPP_TAILQ_REMOVE through head l: sound only for a coroutine linked there or nowhere. */
  function TailqRemove<T(==)>(s: Sched<T>, l: Link, t: T): Sched<T>
    requires l != Unlinked
    requires t in s.th && (s.th[t].link == Unlinked || s.th[t].link == l)
  {
    if s.th[t].link == Unlinked then s
    else WithQueue(SetRec(s, t, s.th[t].(link := Unlinked)), l, Drop(QueueOf(s, l), t))
  }

  /** CPP_TAILQ_INSERT_TAIL: removes through the same head first. */
  function TailqInsertTail<T(==)>(s: Sched<T>, l: Link, t: T): Sched<T>
    requires l != Unlinked
    requires t in s.th && (s.th[t].link == Unlinked || s.th[t].link == l)
  {
    var s1 := TailqRemove(s, l, t);
    WithQueue(SetRec(s1, t, s1.th[t].(link := l)), l, QueueOf(s1, l) + [t])
  }

  // ---------- the sleep heap ----------

  /** m_index_ of a coroutine: its slot, or 0 outside the heap. */
  function IndexOf<T(==)>(h: seq<Node<T>>, t: T): (pos: nat)
    ensures pos <= |h|
    ensures pos > 0 ==> h[pos - 1].item == t
    ensures pos == 0 <==> !HasItem(h, t)
  {
    if h == [] then 0
    else if h[|h| - 1].item == t then |h|
    else
      assert HasItem(h, t) ==> HasItem(h[..|h| - 1], t);
      IndexOf(h[..|h| - 1], t)
  }

  /** HeapPush with its result ignored: nothing happens when the heap is full or t is in it. */
  function HeapPush<T(==)>(s: Sched<T>, t: T): Sched<T>
    requires t in s.th
  {
    if |s.heap| >= s.cap || IndexOf(s.heap, t) != 0 then s
    else s.(heap := Push(s.heap, Node(t, s.th[t].wakeup)))
  }

  function HeapDelete<T(==)>(s: Sched<T>, t: T): Sched<T>
  {
    var pos := IndexOf(s.heap, t);
    if pos == 0 then s else s.(heap := DeleteAt(s.heap, pos))
  }

  // ---------- queue operations ----------

  function InsertRunable<T(==)>(s: Sched<T>, t: T): Sched<T>
    requires t in s.th && (s.th[t].link == Unlinked || s.th[t].link == InRun)
  {
    TailqInsertTail(SetRec(s, t, s.th[t].(runFlag := true)), InRun, t)
  }

  function RemoveRunable<T(==)>(s: Sched<T>, t: T): Sched<T>
    requires t in s.th && (s.th[t].link == Unlinked || s.th[t].link == InRun)
  {
    TailqRemove(SetRec(s, t, s.th[t].(runFlag := false)), InRun, t)
  }

  function InsertSleep<T(==)>(s: Sched<T>, t: T): Sched<T>
    requires t in s.th
  {
    HeapPush(SetRec(s, t, s.th[t].(sleepFlag := true)), t)
  }

  function RemoveSleep<T(==)>(s: Sched<T>, t: T): Sched<T>
    requires t in s.th
  {
    HeapDelete(SetRec(s, t, s.th[t].(sleepFlag := false)), t)
  }

  function InsertIOWait<T(==)>(s: Sched<T>, t: T): Sched<T>
    requires t in s.th && (s.th[t].link == Unlinked || s.th[t].link == InIo)
  {
    InsertSleep(TailqInsertTail(SetRec(s, t, s.th[t].(ioFlag := true)), InIo, t), t)
  }

  function RemoveIOWait<T(==)>(s: Sched<T>, t: T): Sched<T>
    requires t in s.th && (s.th[t].link == Unlinked || s.th[t].link == InIo)
  {
    RemoveSleep(TailqRemove(SetRec(s, t, s.th[t].(ioFlag := false)), InIo, t), t)
  }

  function IOWaitToRunable<T(==)>(s: Sched<T>, t: T): Sched<T>
    requires t in s.th && (s.th[t].link == Unlinked || s.th[t].link == InIo)
  {
    InsertRunable(RemoveIOWait(s, t), t)
  }

  function InsertPend<T(==)>(s: Sched<T>, t: T): Sched<T>
    requires t in s.th && (s.th[t].link == Unlinked || s.th[t].link == InPend)
  {
    TailqInsertTail(SetRec(s, t, s.th[t].(pendFlag := true)), InPend, t)
  }

  /** Unpend: needs a coroutine that is pended (or linked nowhere). */
  function Unpend<T(==)>(s: Sched<T>, t: T): Sched<T>
    requires t in s.th && (s.th[t].link == Unlinked || s.th[t].link == InPend)
  {
    InsertRunable(TailqRemove(SetRec(s, t, s.th[t].(pendFlag := false)), InPend, t), t)
  }

  // ---------- notification and wakeup ----------

  /** An IO waiter is linked in the IO queue, another sleeper nowhere. */
  predicate NotifyReady<T(==)>(s: Sched<T>, t: T)
  {
    && t in s.th
    && (s.th[t].ioFlag ==> s.th[t].link == InIo)
    && (!s.th[t].ioFlag && s.th[t].sleepFlag ==> s.th[t].link == Unlinked)
  }

  function Notify<T(==)>(s: Sched<T>, t: T): Sched<T>
    requires NotifyReady(s, t)
  {
    var s1 := SetRec(s, t, s.th[t].(notified := true));
    if t == s.active then s1
    else if s.th[t].ioFlag then InsertRunable(RemoveIOWait(s1, t), t)
    else if s.th[t].sleepFlag then InsertRunable(RemoveSleep(s1, t), t)
    else s1
  }

  /** The top of the heap is linked where its flags say, as WakeTop needs it. */
  predicate TopLinked<T(==)>(s: Sched<T>)
  {
    && s.heap != [] && s.heap[0].item in s.th
    && var r := s.th[s.heap[0].item];
       r.link == if r.ioFlag then InIo else Unlinked
  }

  /** One pass of the loop in Wakeup, for the coroutine at the top of the heap. */
  function WakeTop<T(==)>(s: Sched<T>): Sched<T>
    requires TopLinked(s)
  {
    var t := s.heap[0].item;
    InsertRunable(if s.th[t].ioFlag then RemoveIOWait(s, t) else RemoveSleep(s, t), t)
  }
}
