/** http_parser_execute of app/st_wrk/http_parser.c in the states of a body: whole stretches of body
    bytes are taken at once, and handed to on_body when they end or the buffer does. Callbacks return 0. */
module HttpExecute {
  import opened Bytes
  import opened HttpBody

  /** The calls of the callbacks. */
  datatype Call = OnBody(data: seq<Byte>) | OnChunkHeader(length: nat) | OnChunkComplete | OnMessageComplete

  function Told(c: Call): seq<Event>
  {
    match c
    case OnBody(data) => Bodies(data)
    case OnChunkHeader(length) => [ChunkHeader(length)]
    case OnChunkComplete => [ChunkComplete]
    case OnMessageComplete => [MessageComplete]
  }

  function AllTold(cs: seq<Call>): seq<Event>
  {
    if cs == [] then [] else AllTold(cs[..|cs| - 1]) + Told(cs[|cs| - 1])
  }

  lemma OneMoreTold(cs: seq<Call>, c: Call)
    ensures AllTold(cs + [c]) == AllTold(cs) + Told(c)
  {
    assert (cs + [c])[..|cs|] == cs;
  }

  lemma NoneTold()
    ensures AllTold([]) == [] && AllTold([OnMessageComplete]) == [MessageComplete]
  {
    OneMoreTold([], OnMessageComplete);
    assert [] + [OnMessageComplete] == [OnMessageComplete];
  }

  class HttpParser {
    var phase: Phase
    var contentLength: nat
    var nread: nat
    var errno: Errno

    /** The parser behind the headers, with the framing they called for. */
    constructor (phase: Phase, contentLength: nat)
      requires Sound(State(phase, contentLength, 0, Ok))
      ensures View() == State(phase, contentLength, 0, Ok)
    {
      this.phase, this.contentLength, nread, errno := phase, contentLength, 0, Ok;
    }

    function View(): State
      reads this
    {
      State(phase, contentLength, nread, errno)
    }

    /** A byte outside the body: the calls it makes, or the error it is. */
    method Single(ch: Byte) returns (ok: bool, calls: seq<Call>)
      requires Sound(View()) && !Stopped(View()) && !InBody(phase)
      modifies this
      ensures (View(), AllTold(calls)) == Step(old(View()), ch) && Sound(View())
      ensures ok <==> errno == Ok
      ensures old(phase) == DataAlmost ==> calls == []
    {
      StepKeepsSound(View(), ch);
      hide AllTold, Bodies;
      Few();
      calls := [];
      if CountsAsHeader(phase) {
        nread := nread + 1;
        if nread > MAX_HEADER_SIZE {
          errno := HeaderOverflow;
          return false, [];
        }
      }
      match phase {
        case SizeStart =>
          var v := Unhex(ch);
          if v == -1 {
            errno := InvalidChunkSize;
          } else {
            contentLength, phase := v, Size;
          }
        case Size =>
          var v := Unhex(ch);
          if ch == CR {
            phase := SizeAlmost;
          } else if v == -1 {
            if ch == 59 || ch == 32 {
              phase := Params;
            } else {
              errno := InvalidChunkSize;
            }
          } else {
            var t := contentLength * 16 + v;
            if (ULLONG_MAX - 16) / 16 < contentLength {
              errno := InvalidContentLength;
            } else {
              contentLength := t;
            }
          }
        case Params =>
          if ch == CR {
            phase := SizeAlmost;
          }
        case SizeAlmost =>
          if ch != LF {
            errno := Strict;
          } else {
            nread := 0;
            phase := if contentLength == 0 then TrailerStart else Data;
            calls := [OnChunkHeader(contentLength)];
          }
        case TrailerStart =>
          if ch == CR {
            phase := TrailerAlmost;
          } else if ch == LF {
            phase := Complete;
            calls := [OnChunkComplete, OnMessageComplete];
          } else {
            phase := Trailers;
          }
        case TrailerAlmost =>
          if ch != LF {
            errno := Strict;
          } else {
            phase := Complete;
            calls := [OnChunkComplete, OnMessageComplete];
          }
        case DataAlmost =>
          if ch != CR {
            errno := Strict;
          } else {
            phase := DataDone;
          }
        case DataDone =>
          if ch != LF {
            errno := Strict;
          } else {
            nread := 0;
            phase := SizeStart;
            calls := [OnChunkComplete];
          }
      }
      ok := errno == Ok;
    }

    lemma Few()
      ensures AllTold([]) == []
      ensures forall n :: AllTold([OnChunkHeader(n)]) == [ChunkHeader(n)]
      ensures AllTold([OnChunkComplete]) == [ChunkComplete]
      ensures AllTold([OnChunkComplete, OnMessageComplete]) == [ChunkComplete, MessageComplete]
    {
      forall n
        ensures AllTold([OnChunkHeader(n)]) == [ChunkHeader(n)]
      {
        OneMoreTold([], OnChunkHeader(n));
      }
      OneMoreTold([], OnChunkComplete);
      OneMoreTold([OnChunkComplete], OnMessageComplete);
      assert [OnChunkComplete] + [OnMessageComplete] == [OnChunkComplete, OnMessageComplete];
    }

    /** Body bytes from p on, as many as belong to it; the byte that ends an identity body reports it. */
    method TakeBody(room: nat) returns (n: nat)
      requires Sound(View()) && errno == Ok && InBody(phase) && room > 0
      modifies this
      ensures 0 < n <= room && (old(phase) != IdentityEof ==> n <= old(contentLength))
      ensures View() == After(old(View()), n)
      ensures old(phase) == IdentityEof || n == room || n == old(contentLength)
    {
      if phase == IdentityEof {
        return room;
      }
      n := if contentLength < room then contentLength else room;
      contentLength := contentLength - n;
      if contentLength == 0 {
        phase := if phase == Data then DataAlmost else Complete;
      }
    }

    /** http_parser_execute: the number of bytes taken and the calls made. */
    method Execute(data: seq<Byte>) returns (n: nat, calls: seq<Call>)
      requires Sound(View())
      modifies this
      ensures Sound(View())
      ensures var (s, ev, k) := OneCall(old(View()), data);
              View() == s && n == k && if errno == Ok then AllTold(calls) == ev else AllTold(calls) <= ev
    {
      hide Feed, AllTold;
      NoneTold();
      if errno != Ok {
        return 0, [];
      }
      if |data| == 0 {
        if phase == IdentityEof {
          return 0, [OnMessageComplete];
        }
        if phase == Complete {
          return 0, [];
        }
        errno := InvalidEof;
        return 1, [];
      }
      n, calls := ExecuteBytes(data);
    }

    /** Its loop over a buffer. The parser stops behind a message, where the header states take over. */
    method ExecuteBytes(data: seq<Byte>) returns (n: nat, calls: seq<Call>)
      requires Sound(View()) && errno == Ok && data != []
      modifies this
      ensures Sound(View())
      ensures var (s, ev, k) := Feed(old(View()), data);
              View() == s && n == k && if errno == Ok then AllTold(calls) == ev else AllTold(calls) <= ev
    {
      hide Feed, Then, AllTold, Bodies, Progress, Step;
      var p := 0;
      var mark := -1;
      calls := [];
      ghost var s0 := View();
      Begin(s0, data);
      while p < |data| && phase != Complete && phase != Trailers
        invariant 0 <= p <= |data| && -1 <= mark <= p
        invariant errno == Ok && Sound(View())
        invariant mark != -1 ==> InBody(phase) || phase == DataAlmost
        invariant Progress(s0, data, View(), calls, mark, p)
        decreases |data| - p
      {
        ghost var before := View();
        if InBody(phase) {
          if mark == -1 {
            mark := p;
            MarkHere(s0, data, before, calls, p);
          }
          var k := TakeBody(|data| - p);
          AfterKeeps(before, k);
          TookBody(s0, data, before, calls, mark, p, k);
          if phase == Complete {
            calls := calls + [OnBody(data[mark..p + k]), OnMessageComplete];
            mark := -1;
          }
          p := p + k;
        } else {
          if phase == DataAlmost && mark != -1 && data[p] == CR {
            Flush(s0, data, before, calls, mark, p);
            calls := calls + [OnBody(data[mark..p])];
            mark := -1;
          }
          StepFails(before, data[p]);
          var ok, more := Single(data[p]);
          TookOne(s0, data, before, View(), calls, more, mark, p);
          if !ok {
            return p, calls;
          }
          calls := calls + more;
          p := p + 1;
        }
      }
      Done(s0, data, View(), calls, mark, p);
      if mark != -1 {
        calls := calls + [OnBody(data[mark..p])];
      }
      n := p;
    }
  }

  /** Feeding the buffer is what was told of the first p bytes, then feeding the rest. */
  ghost predicate Progress(s0: State, data: seq<Byte>, s: State, calls: seq<Call>, mark: int, p: nat)
  {
    && Sound(s0) && Sound(s) && p <= |data| && -1 <= mark <= p
    && Feed(s0, data) == Then((s, Reported(calls, data, mark, p), p), Feed(s, data[p..]))
  }

  lemma MarkHere(s0: State, data: seq<Byte>, s: State, calls: seq<Call>, p: nat)
    requires Progress(s0, data, s, calls, -1, p)
    ensures Progress(s0, data, s, calls, p, p)
  {
    assert Bodies(data[p..p]) == [];
  }

  lemma Flush(s0: State, data: seq<Byte>, s: State, calls: seq<Call>, mark: nat, p: nat)
    requires Progress(s0, data, s, calls, mark, p)
    ensures Progress(s0, data, s, calls + [OnBody(data[mark..p])], -1, p)
  {
    OneMoreTold(calls, OnBody(data[mark..p]));
    hide AllTold;
    assert AllTold(calls + [OnBody(data[mark..p])]) + [] == AllTold(calls) + Bodies(data[mark..p]);
  }

  lemma TookBody(s0: State, data: seq<Byte>, s: State, calls: seq<Call>, mark: nat, p: nat, k: nat)
    requires Progress(s0, data, s, calls, mark, p) && s.errno == Ok && InBody(s.phase)
    requires 0 < k <= |data| - p && (s.phase != IdentityEof ==> k <= s.length)
    ensures Sound(After(s, k))
    ensures if s.phase == Identity && k == s.length
              then Progress(s0, data, After(s, k), calls + [OnBody(data[mark..p + k]), OnMessageComplete], -1, p + k)
            else Progress(s0, data, After(s, k), calls, mark, p + k)
  {
    hide AllTold, Bodies, Feed, Then, After, BulkEvents;
    FeedBody(s, data[p..], k);
    TakenBody(s, calls, data, mark, p, k);
    assert data[p..][k..] == data[p + k..];
    ThenJoins(s, Reported(calls, data, mark, p), p, After(s, k), BulkEvents(s, data[p..][..k]), k,
              Feed(After(s, k), data[p + k..]));
    var told := AllTold(calls + [OnBody(data[mark..p + k]), OnMessageComplete]);
    assert told + [] == told;
  }

  lemma TookOne(s0: State, data: seq<Byte>, s: State, s': State, calls: seq<Call>, more: seq<Call>, mark: int, p: nat)
    requires Progress(s0, data, s, calls, mark, p) && p < |data| && !Stopped(s) && !InBody(s.phase)
    requires (s', AllTold(more)) == Step(s, data[p])
    requires mark != -1 ==> s.phase == DataAlmost && data[p] != CR
    ensures if s'.errno == Ok then Progress(s0, data, s', calls + more, mark, p + 1)
            else Feed(s0, data).0 == s' && Feed(s0, data).2 == p && AllTold(calls) <= Feed(s0, data).1
  {
    hide Step, Feed, Bodies, AllTold, Sound, Stopped;
    StepFails(s, data[p]);
    FeedHead(s, data[p..]);
    assert data[p..][0] == data[p] && data[p..][1..] == data[p + 1..];
    if s'.errno == Ok {
      assert mark == -1;
      ToldAppend(calls, more);
      var told := Reported(calls, data, mark, p);
      assert told == AllTold(calls) by {
        assert AllTold(calls) + [] == AllTold(calls);
      }
      ThenJoins(s, told, p, s', AllTold(more), 1, Feed(s', data[p + 1..]));
      assert Reported(calls + more, data, mark, p + 1) == told + AllTold(more) by {
        assert AllTold(calls + more) + [] == AllTold(calls + more);
      }
    }
  }

  lemma Done(s0: State, data: seq<Byte>, s: State, calls: seq<Call>, mark: int, p: nat)
    requires Progress(s0, data, s, calls, mark, p) && (p == |data| || Stopped(s))
    ensures var (s1, ev, k) := Feed(s0, data);
            && s1 == s && k == p
            && ev == AllTold(if mark == -1 then calls else calls + [OnBody(data[mark..p])])
  {
    FeedNone(s, data[p..]);
    if mark != -1 {
      OneMoreTold(calls, OnBody(data[mark..p]));
    }
    hide AllTold, Feed;
    var told := Reported(calls, data, mark, p);
    assert told + [] == told;
    assert AllTold(calls) + [] == AllTold(calls);
  }

  lemma StepFails(s: State, ch: Byte)
    requires Sound(s) && !Stopped(s)
    ensures Step(s, ch).0.errno != Ok ==> Step(s, ch).1 == []
    ensures s.phase == DataAlmost && ch != CR ==> Step(s, ch).0.errno != Ok
    ensures Sound(Step(s, ch).0)
  {
    StepKeepsSound(s, ch);
  }

  lemma {:induction false} ToldAppend(cs: seq<Call>, more: seq<Call>)
    ensures AllTold(cs + more) == AllTold(cs) + AllTold(more)
    decreases |more|
  {
    if more == [] {
      assert cs + more == cs;
      assert AllTold(cs) + [] == AllTold(cs);
    } else {
      var init, c := more[..|more| - 1], more[|more| - 1];
      assert init + [c] == more;
      ToldAppend(cs, init);
      ToldSnoc(cs, init, c);
    }
  }

  lemma ToldSnoc(cs: seq<Call>, init: seq<Call>, c: Call)
    requires AllTold(cs + init) == AllTold(cs) + AllTold(init)
    ensures AllTold(cs + (init + [c])) == AllTold(cs) + AllTold(init + [c])
  {
    OneMoreTold(init, c);
    OneMoreTold(cs + init, c);
    hide AllTold, Told;
    Assoc(cs, init, [c]);
    Assoc(AllTold(cs), AllTold(init), Told(c));
  }

  lemma Assoc<T>(a: seq<T>, b: seq<T>, c: seq<T>)
    ensures (a + b) + c == a + (b + c)
  {
  }

  /** The events of k body bytes behind what was told, as the mark and the calls show them. */
  lemma TakenBody(s: State, calls: seq<Call>, data: seq<Byte>, mark: nat, p: nat, k: nat)
    requires mark <= p && p + k <= |data| && k > 0
    ensures data[p..][..k] == data[p..p + k]
    ensures Bodies(data[mark..p]) + Bodies(data[p..p + k]) == Bodies(data[mark..p + k]) && Bodies(data[p..p]) == []
    ensures AllTold(calls) + Bodies(data[mark..p]) + BulkEvents(s, data[p..][..k])
         == if s.phase == Identity && k == s.length then AllTold(calls + [OnBody(data[mark..p + k]), OnMessageComplete])
            else AllTold(calls) + Bodies(data[mark..p + k])
  {
    hide AllTold, Bodies;
    assert data[p..][..k] == data[p..p + k];
    assert data[mark..p] + data[p..p + k] == data[mark..p + k];
    BodiesAppend(data[mark..p], data[p..p + k]);
    BodyThenEnd(calls, data[mark..p + k]);
    var a, b, c := AllTold(calls), Bodies(data[mark..p]), Bodies(data[p..p + k]);
    Regrouped(a, b, c, []);
    Regrouped(a, b, c, [MessageComplete]);
    assert a + (b + c) + [] == a + (b + c);
  }

  lemma Regrouped(a: seq<Event>, b: seq<Event>, c: seq<Event>, t: seq<Event>)
    ensures a + b + (c + t) == a + (b + c) + t
  {
  }

  lemma BodyThenEnd(calls: seq<Call>, body: seq<Byte>)
    ensures AllTold(calls + [OnBody(body), OnMessageComplete]) == AllTold(calls) + Bodies(body) + [MessageComplete]
  {
    hide AllTold, Bodies;
    OneMoreTold(calls, OnBody(body));
    OneMoreTold(calls + [OnBody(body)], OnMessageComplete);
    assert calls + [OnBody(body), OnMessageComplete] == calls + [OnBody(body)] + [OnMessageComplete];
  }

  /** What the callbacks have been told, and what waits behind the mark. */
  ghost function Reported(calls: seq<Call>, data: seq<Byte>, mark: int, p: nat): seq<Event>
    requires p <= |data| && -1 <= mark <= p
  {
    AllTold(calls) + if mark == -1 then [] else Bodies(data[mark..p])
  }

  lemma Begin(s: State, data: seq<Byte>)
    requires Sound(s)
    ensures Progress(s, data, s, [], -1, 0)
  {
    assert data[0..] == data;
    assert Reported([], data, -1, 0) == [];
    ThenNothing(s, Feed(s, data));
  }
}
