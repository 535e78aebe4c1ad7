/** The read loop of app/st_httpclient/http_client.cc over http_parser_execute: what a caller has of a body
    whose bytes come in whatever pieces the network gives. */
module HttpRead {
  import opened Queues
  import opened Bytes
  import opened HttpBody
  import opened HttpExecute
  import opened HttpDecode

  /** What on_body has gathered. */
  function Gathered(calls: seq<Call>): seq<Byte>
  {
    if calls == [] then []
    else Gathered(calls[..|calls| - 1]) + (if calls[|calls| - 1].OnBody? then calls[|calls| - 1].data else [])
  }

  lemma {:induction false} GatheredIsTold(calls: seq<Call>)
    ensures Gathered(calls) == BodyOf(AllTold(calls))
    ensures OnMessageComplete in calls <==> MessageComplete in AllTold(calls)
    decreases |calls|
  {
    if calls != [] {
      var init, c := calls[..|calls| - 1], calls[|calls| - 1];
      assert init + [c] == calls;
      GatheredIsTold(init);
      OneMoreTold(init, c);
      EventsAppend(AllTold(init), Told(c));
      ToldBody(c);
    }
  }

  lemma ToldBody(c: Call)
    ensures BodyOf(Told(c)) == if c.OnBody? then c.data else []
    ensures c == OnMessageComplete <==> MessageComplete in Told(c)
  {
    if c.OnBody? {
      BodiesTold(c.data);
    } else {
      OneEvent(Told(c)[0]);
    }
  }

  function Behind(body: seq<Byte>, more: Option<seq<Byte>>): Option<seq<Byte>>
  {
    match more
    case None => None
    case Some(b) => Some(body + b)
  }

  /** The body the loop ends with, or none: a failed read, an error of the parser, bytes it did not take, or
      the end of the connection inside the message. */
  function ReadAll(s: State, bufs: seq<seq<Byte>>): Option<seq<Byte>>
    requires Sound(s)
    decreases |bufs|
  {
    if bufs == [] then None
    else
      var (s1, ev, n) := OneCall(s, bufs[0]);
      if bufs[0] != [] && (n != |bufs[0]| || s1.errno != Ok) then None
      else if MessageComplete in ev then Some(BodyOf(ev))
      else if bufs[0] == [] then None
      else Behind(BodyOf(ev), ReadAll(s1, bufs[1..]))
  }

  /** The message is complete with buffer k: every buffer before has bytes and leaves it incomplete, and all of
      them are taken whole. */
  ghost predicate ReadAt(s: State, bufs: seq<seq<Byte>>, k: nat)
    requires Sound(s)
  {
    && k < |bufs| && (forall i :: 0 <= i < k ==> bufs[i] != [])
    && FeedAll(s, bufs[..k + 1]).2 && MessageComplete in FeedAll(s, bufs[..k + 1]).1
    && MessageComplete !in FeedAll(s, bufs[..k]).1
  }

  lemma {:induction false} FailTakesLess(s: State, bs: seq<Byte>)
    requires Sound(s) && bs != []
    ensures Feed(s, bs).0.errno != Ok ==> Feed(s, bs).2 < |bs|
    decreases |bs|
  {
    if Stopped(s) {
      FeedNone(s, bs);
    } else {
      FeedHead(s, bs);
      if bs[1..] == [] {
        FeedNone(Step(s, bs[0]).0, bs[1..]);
      } else {
        FailTakesLess(Step(s, bs[0]).0, bs[1..]);
      }
    }
  }

  lemma OneRead(s: State, b: seq<Byte>)
    requires Sound(s)
    ensures FeedAll(s, []) == (s, [], true)
    ensures s.errno == Ok ==> FeedAll(s, [b]) == (OneCall(s, b).0, OneCall(s, b).1, OneCall(s, b).2 == |b|)
    ensures s.errno != Ok ==> FeedAll(s, [b]) == (s, [], true)
    ensures OneCall(s, b).0.errno != Ok && s.errno == Ok ==> OneCall(s, b).2 != |b|
  {
    hide Feed;
    assert [b][1..] == [];
    if s.errno == Ok {
      assert OneCall(s, b).1 + [] == OneCall(s, b).1;
      if b != [] {
        FailTakesLess(s, b);
      }
    }
  }

  lemma MoreReads(s: State, bufs: seq<seq<Byte>>, k: nat)
    requires Sound(s) && s.errno == Ok && bufs != [] && 0 < k <= |bufs|
    ensures var (s1, ev, n) := OneCall(s, bufs[0]);
            var (s2, more, whole) := FeedAll(s1, bufs[1..][..k - 1]);
            FeedAll(s, bufs[..k]) == (s2, ev + more, n == |bufs[0]| && whole)
  {
    hide OneCall;
    assert bufs[..k][0] == bufs[0] && bufs[..k][1..] == bufs[1..][..k - 1];
  }

  lemma ReadAtZero(s: State, bufs: seq<seq<Byte>>)
    requires Sound(s) && bufs != []
    ensures ReadAt(s, bufs, 0) <==>
              s.errno == Ok && OneCall(s, bufs[0]).2 == |bufs[0]| && MessageComplete in OneCall(s, bufs[0]).1
  {
    hide OneCall;
    OneRead(s, bufs[0]);
    assert bufs[..1] == [bufs[0]] && bufs[..0] == [];
  }

  lemma ReadAtMore(s: State, bufs: seq<seq<Byte>>, k: nat)
    requires Sound(s) && 0 < k < |bufs|
    ensures ReadAt(s, bufs, k) <==>
              && s.errno == Ok && bufs[0] != [] && OneCall(s, bufs[0]).2 == |bufs[0]|
              && MessageComplete !in OneCall(s, bufs[0]).1 && ReadAt(OneCall(s, bufs[0]).0, bufs[1..], k - 1)
  {
    hide OneCall;
    assert forall i :: 0 <= i < |bufs| - 1 ==> bufs[1..][i] == bufs[i + 1];
    if s.errno == Ok {
      MoreReads(s, bufs, k);
      MoreReads(s, bufs, k + 1);
      assert forall i :: 1 <= i < k ==> bufs[i] == bufs[1..][i - 1];
    }
  }

  /** The loop hands out a body exactly when the message is complete with some buffer; then it is everything
      told of the body up to it. */
  lemma {:induction false} ReadAllIs(s: State, bufs: seq<seq<Byte>>)
    requires Sound(s)
    ensures ReadAll(s, bufs).Some? <==> exists k: nat :: ReadAt(s, bufs, k)
    ensures forall k: nat :: ReadAt(s, bufs, k) ==> ReadAll(s, bufs) == Some(BodyOf(FeedAll(s, bufs[..k + 1]).1))
    decreases |bufs|
  {
    hide OneCall, ReadAt, FeedAll;
    if bufs == [] {
      NotBehind(s, bufs);
    } else {
      var (s1, ev, n) := OneCall(s, bufs[0]);
      OneRead(s, bufs[0]);
      FailedCall(s, bufs[0]);
      ReadAtZero(s, bufs);
      ReadAllIs(s1, bufs[1..]);
      assert bufs[..1] == [bufs[0]];
      NotBehind(s, bufs);
      NotBehind(s1, bufs[1..]);
      forall k: nat | ReadAt(s, bufs, k)
        ensures ReadAll(s, bufs) == Some(BodyOf(FeedAll(s, bufs[..k + 1]).1))
      {
        if k > 0 {
          ReadAtMore(s, bufs, k);
          MoreReads(s, bufs, k + 1);
          EventsAppend(ev, FeedAll(s1, bufs[1..][..k]).1);
        }
      }
      if ReadAll(s, bufs).Some? && !ReadAt(s, bufs, 0) {
        var k: nat :| ReadAt(s1, bufs[1..], k);
        ReadAtMore(s, bufs, k + 1);
      }
    }
  }

  lemma NotBehind(s: State, bufs: seq<seq<Byte>>)
    requires Sound(s)
    ensures forall k: nat :: ReadAt(s, bufs, k) ==> k < |bufs|
  {
  }

  /** A parser that has failed tells nothing. */
  lemma FailedCall(s: State, b: seq<Byte>)
    requires Sound(s)
    ensures s.errno != Ok ==> OneCall(s, b) == (s, [], 0)
    ensures b == [] && s.errno == Ok ==> (MessageComplete in OneCall(s, b).1 ==> OneCall(s, b).2 == 0)
  {
  }

  /** The loop; bufs is what st_recv gives, call by call, an empty buffer being the end of the connection.
      When they run out st_recv fails or the time is over. */
  method ReadBody(parser: HttpParser, bufs: seq<seq<Byte>>) returns (ok: bool, body: seq<Byte>)
    requires Sound(parser.View())
    modifies parser
    ensures ReadAll(old(parser.View()), bufs) == if ok then Some(body) else None
    ensures ok <==> exists k: nat :: ReadAt(old(parser.View()), bufs, k)
    ensures forall k: nat :: ReadAt(old(parser.View()), bufs, k) ==>
              body == BodyOf(FeedAll(old(parser.View()), bufs[..k + 1]).1)
  {
    ReadAllIs(parser.View(), bufs);
    hide Feed, ReadAt, FeedAll, BodyOf, AllTold, Gathered;
    body := [];
    var k := 0;
    assert bufs[0..] == bufs;
    NothingYet(ReadAll(parser.View(), bufs));
    while k < |bufs|
      invariant k <= |bufs| && Sound(parser.View())
      invariant ReadAll(old(parser.View()), bufs) == Behind(body, ReadAll(parser.View(), bufs[k..]))
    {
      var data := bufs[k];
      assert bufs[k..][0] == data && bufs[k..][1..] == bufs[k + 1..];
      var n, calls := parser.Execute(data);
      GatheredIsTold(calls);
      if data != [] && (n != |data| || parser.errno != Ok) {
        return false, [];
      }
      BehindMore(body, Gathered(calls), ReadAll(parser.View(), bufs[k + 1..]));
      body := body + Gathered(calls);
      if OnMessageComplete in calls {
        return true, body;
      }
      if data == [] {
        return false, [];
      }
      k := k + 1;
    }
    return false, [];
  }

  lemma BehindMore(a: seq<Byte>, b: seq<Byte>, more: Option<seq<Byte>>)
    ensures Behind(a + b, more) == Behind(a, Behind(b, more))
  {
    if more.Some? {
      assert a + b + more.value == a + (b + more.value);
    }
  }

  lemma NothingYet(more: Option<seq<Byte>>)
    ensures Behind([], more) == more
  {
    if more.Some? {
      assert [] + more.value == more.value;
    }
  }

  /** The end of a message is told when it is reached, and nothing behind it. */
  lemma {:induction false} EndIsTold(s: State, bs: seq<Byte>, s': State, ev: seq<Event>)
    requires Leads(s, bs, s', ev) && s.errno == Ok && s.phase != Complete && s'.phase == Complete
    ensures ev != [] && ev[|ev| - 1] == MessageComplete
    decreases |bs|
  {
    if bs == [] {
      FeedNone(s, bs);
    } else if !Stopped(s) {
      FeedHead(s, bs);
      var (s1, ev1) := Step(s, bs[0]);
      if s1.phase == Complete {
        FeedNone(s1, bs[1..]);
      } else if s1.errno == Ok {
        EndIsTold(s1, bs[1..], s', Feed(s1, bs[1..]).1);
      }
    } else {
      FeedNone(s, bs);
    }
  }

  /** A message told complete once, at its end, is read whole under every cut without empty buffers. */
  lemma {:induction false} ReadsWhole(s: State, bufs: seq<seq<Byte>>, s': State, ev: seq<Event>)
    requires Leads(s, Joined(bufs), s', ev) && s.errno == Ok && s.phase != Complete && s'.phase == Complete
    requires Completions(ev) == 1 && forall i :: 0 <= i < |bufs| ==> bufs[i] != []
    ensures ReadAll(s, bufs) == Some(BodyOf(ev))
    decreases |bufs|
  {
    EndIsTold(s, Joined(bufs), s', ev);
    if bufs == [] {
      FeedNone(s, []);
    } else {
      var s1, ev1 := OneCut(s, bufs[0], Joined(bufs[1..]), s', ev);
      var ev2 := ev[|ev1|..];
      EventsAppend(ev1, ev2);
      assert forall i :: 0 <= i < |bufs[1..]| ==> bufs[1..][i] == bufs[i + 1];
      if bufs[1..] == [] {
        FeedNone(s1, []);
        assert ev1 == ev;
      } else {
        assert Joined(bufs[1..]) != [] by {
          assert bufs[1..][0] != [];
        }
        InsideMessage(s1, Joined(bufs[1..]), s', ev2);
        EndIsTold(s1, Joined(bufs[1..]), s', ev2);
        Counted1(ev2);
        NotTold(ev1);
        ReadsWhole(s1, bufs[1..], s', ev2);
      }
    }
  }

  lemma {:induction false} Counted1(ev: seq<Event>)
    requires MessageComplete in ev
    ensures Completions(ev) >= 1
    decreases |ev|
  {
    if ev[0] != MessageComplete {
      assert MessageComplete in ev[1..];
      Counted1(ev[1..]);
    }
  }

  lemma NotTold(ev: seq<Event>)
    requires Completions(ev) == 0
    ensures MessageComplete !in ev
  {
    if MessageComplete in ev {
      Counted1(ev);
    }
  }

  /** The caller has the chunks' data, however their bytes are cut. */
  lemma ChunkedIsRead(s: State, cs: seq<Chunk>, zero: SizeText, bufs: seq<seq<Byte>>)
    requires AtChunk(s) && ZeroOk(zero) && (forall i :: 0 <= i < |cs| ==> ChunkOk(cs[i]))
    requires Joined(bufs) == Stream(cs, zero) && forall i :: 0 <= i < |bufs| ==> bufs[i] != []
    ensures ReadAll(s, bufs) == Some(Payload(cs))
  {
    StreamLeads(s, cs, zero);
    StoryTold(cs);
    ReadsWhole(s, bufs, State(Complete, 0, 2, Ok), Story(cs));
  }

  /** And a body of unknown length, once the connection is closed. */
  lemma {:induction false} UntilCloseIsRead(s: State, bufs: seq<seq<Byte>>)
    requires Sound(s) && s.errno == Ok && s.phase == IdentityEof && forall i :: 0 <= i < |bufs| ==> bufs[i] != []
    ensures ReadAll(s, bufs + [[]]) == Some(Joined(bufs))
    decreases |bufs|
  {
    var all := bufs + [[]];
    OneEvent(MessageComplete);
    if bufs == [] {
      assert all[0] == [];
    } else {
      assert all[0] == bufs[0] && all[1..] == bufs[1..] + [[]];
      assert forall i :: 0 <= i < |bufs[1..]| ==> bufs[1..][i] == bufs[i + 1];
      EofStays(s, bufs[0]);
      BodiesTold(bufs[0]);
      UntilCloseIsRead(s, bufs[1..]);
    }
  }

  // ---------- a connection that closes too early ----------

  /** When the connection closes inside a message, wherever and however its bytes were cut, no body is handed
      out. */
  lemma {:induction false} CutShortFails(s: State, bufs: seq<seq<Byte>>, all: seq<Byte>, s': State, ev: seq<Event>)
    requires Leads(s, all, s', ev) && s.errno == Ok && s'.phase == Complete && Completions(ev) == 1
    requires Joined(bufs) <= all && Joined(bufs) != all && forall i :: 0 <= i < |bufs| ==> bufs[i] != []
    ensures ReadAll(s, bufs + [[]]) == None
    decreases |bufs|
  {
    var calls := bufs + [[]];
    InsideMessage(s, all, s', ev);
    if bufs == [] {
      assert calls[0] == [];
    } else {
      assert calls[0] == bufs[0] && calls[1..] == bufs[1..] + [[]];
      assert forall i :: 0 <= i < |bufs[1..]| ==> bufs[1..][i] == bufs[i + 1];
      var rest := all[|bufs[0]|..];
      assert all == bufs[0] + rest by {
        assert all[..|bufs[0]|] == Joined(bufs)[..|bufs[0]|] == bufs[0];
      }
      RestIsPrefix(bufs[0], Joined(bufs[1..]), all);
      var s1, ev1 := OneCut(s, bufs[0], rest, s', ev);
      var ev2 := ev[|ev1|..];
      EventsAppend(ev1, ev2);
      InsideMessage(s1, rest, s', ev2);
      EndIsTold(s1, rest, s', ev2);
      Counted1(ev2);
      NotTold(ev1);
      CutShortFails(s1, bufs[1..], rest, s', ev2);
    }
  }

  lemma RestIsPrefix(a: seq<Byte>, b: seq<Byte>, all: seq<Byte>)
    requires a + b <= all && a + b != all
    ensures b <= all[|a|..] && b != all[|a|..]
  {
    assert (a + b)[|a|..] == b;
    assert all[..|a + b|][|a|..] == all[|a|..][..|b|];
    assert b == all[|a|..] ==> a + b == all;
  }

  lemma NoneIsNever(s: State, bufs: seq<seq<Byte>>)
    requires Sound(s) && ReadAll(s, bufs) == None
    ensures forall k: nat :: !ReadAt(s, bufs, k)
  {
    ReadAllIs(s, bufs);
  }

  /** A chunked body that ends anywhere before its last byte is not handed out. */
  lemma ChunkedCutShort(s: State, cs: seq<Chunk>, zero: SizeText, bufs: seq<seq<Byte>>)
    requires AtChunk(s) && ZeroOk(zero) && (forall i :: 0 <= i < |cs| ==> ChunkOk(cs[i]))
    requires Joined(bufs) <= Stream(cs, zero) && Joined(bufs) != Stream(cs, zero)
    requires forall i :: 0 <= i < |bufs| ==> bufs[i] != []
    ensures forall k: nat :: !ReadAt(s, bufs + [[]], k)
  {
    StreamLeads(s, cs, zero);
    StoryTold(cs);
    CutShortFails(s, bufs, Stream(cs, zero), State(Complete, 0, 2, Ok), Story(cs));
    NoneIsNever(s, bufs + [[]]);
  }

  /** Nor is a body of a given length with fewer bytes. */
  lemma IdentityCutShort(n: nat, bufs: seq<seq<Byte>>)
    requires |Joined(bufs)| < n < ULLONG_MAX && forall i :: 0 <= i < |bufs| ==> bufs[i] != []
    ensures forall k: nat :: !ReadAt(State(Identity, n, 0, Ok), bufs + [[]], k)
  {
    var s := State(Identity, n, 0, Ok);
    var body := Joined(bufs) + seq(n - |Joined(bufs)|, _ => 0);
    FeedBody(s, body, |body|);
    assert body[..|body|] == body && body[|body|..] == [];
    FeedNone(State(Complete, 0, 0, Ok), []);
    var ev := Bodies(body) + [MessageComplete];
    assert ev + [] == ev;
    BodiesTold(body);
    OneEvent(MessageComplete);
    EventsAppend(Bodies(body), [MessageComplete]);
    CutShortFails(s, bufs, body, State(Complete, 0, 0, Ok), ev);
    NoneIsNever(s, bufs + [[]]);
  }
}
