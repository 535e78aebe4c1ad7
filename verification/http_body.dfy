/** The body of a message in app/st_wrk/http_parser.c, one byte at a time: chunked bodies
    (section 3.6.1 of RFC 2616) and bodies of a given length. */
module HttpBody {
  import opened Bytes

  const MAX_HEADER_SIZE: int := 80 * 1024
  const ULLONG_MAX: int := 0xffff_ffff_ffff_ffff

  datatype Phase =
    | SizeStart | Size | Params | SizeAlmost         // the line with the size of a chunk
    | TrailerStart | TrailerAlmost                   // behind the last chunk
    | Data | DataAlmost | DataDone                   // the data of a chunk
    | Identity | IdentityEof                         // a body of content_length bytes, or up to the end
    | Complete                                       // the message is over
    | Trailers                                       // trailer fields, which the header states take

  datatype Errno = Ok | InvalidChunkSize | InvalidContentLength | HeaderOverflow | Strict | InvalidEof

  /** content_length, nread and errno of the parser. */
  datatype State = State(phase: Phase, length: nat, nread: nat, errno: Errno)

  /** What the callbacks are told, on_body byte by byte. */
  datatype Event = Body(b: Byte) | ChunkHeader(length: nat) | ChunkComplete | MessageComplete

  /** unhex[ch], or -1. The table has initializers for 128 bytes; the others are 0. */
  function Unhex(ch: Byte): (v: int)
    ensures -1 <= v <= 15
  {
    var c: int := ch;
    if 48 <= c <= 57 then c - 48
    else if 65 <= c <= 70 then c - 55
    else if 97 <= c <= 102 then c - 87
    else if c >= 128 then 0
    else -1
  }

  /** The states whose bytes count towards HTTP_MAX_HEADER_SIZE. */
  predicate CountsAsHeader(p: Phase)
  {
    p == SizeStart || p == Size || p == Params || p == SizeAlmost || p == TrailerStart || p == TrailerAlmost
  }

  predicate Stopped(s: State)
  {
    s.errno != Ok || s.phase == Complete || s.phase == Trailers
  }

  function Fail(s: State, e: Errno): (State, seq<Event>)
  {
    (s.(errno := e), [])
  }

  function Go(s: State, p: Phase): State
  {
    s.(phase := p)
  }

  /** One hexadecimal digit more, or an error when 64 bits might not hold it. */
  function ShiftHex(n: nat, digit: nat): int
  {
    if (ULLONG_MAX - 16) / 16 < n then -1 else n * 16 + digit
  }

  /** One decimal digit more in a Content-Length value, or an error when 64 bits might not hold it. */
  function ShiftDec(n: nat, digit: nat): int
  {
    if (ULLONG_MAX - 10) / 10 < n then -1 else n * 10 + digit
  }

  /** The byte ch in state s, whose byte count is up to date. */
  function Act(s: State, ch: Byte): (r: (State, seq<Event>))
    requires !Stopped(s) && (s.phase == Data || s.phase == Identity ==> s.length > 0)
  {
    match s.phase
    case SizeStart =>
      if Unhex(ch) == -1 then Fail(s, InvalidChunkSize) else (Go(s, Size).(length := Unhex(ch)), [])
    case Size =>
      if ch == CR then (Go(s, SizeAlmost), [])
      else if Unhex(ch) == -1 then
        if ch == 59 || ch == 32 then (Go(s, Params), []) else Fail(s, InvalidChunkSize)
      else if ShiftHex(s.length, Unhex(ch)) == -1 then Fail(s, InvalidContentLength)
      else (s.(length := ShiftHex(s.length, Unhex(ch))), [])
    case Params => (if ch == CR then Go(s, SizeAlmost) else s, [])
    case SizeAlmost =>
      if ch != LF then Fail(s, Strict)
      else (Go(s, if s.length == 0 then TrailerStart else Data).(nread := 0), [ChunkHeader(s.length)])
    case TrailerStart =>
      if ch == CR then (Go(s, TrailerAlmost), [])
      else if ch == LF then (Go(s, Complete), [ChunkComplete, MessageComplete])
      else (Go(s, Trailers), [])
    case TrailerAlmost =>
      if ch != LF then Fail(s, Strict) else (Go(s, Complete), [ChunkComplete, MessageComplete])
    case Data => (Go(s, if s.length == 1 then DataAlmost else Data).(length := s.length - 1), [Body(ch)])
    case DataAlmost => if ch != CR then Fail(s, Strict) else (Go(s, DataDone), [])
    case DataDone => if ch != LF then Fail(s, Strict) else (Go(s, SizeStart).(nread := 0), [ChunkComplete])
    case Identity =>
      if s.length == 1 then (Go(s, Complete).(length := 0), [Body(ch), MessageComplete])
      else (s.(length := s.length - 1), [Body(ch)])
    case IdentityEof => (s, [Body(ch)])
  }

  function Counted(s: State): State
  {
    if CountsAsHeader(s.phase) then s.(nread := s.nread + 1) else s
  }

  function Step(s: State, ch: Byte): (r: (State, seq<Event>))
    requires !Stopped(s) && Sound(s)
  {
    var s1 := Counted(s);
    if CountsAsHeader(s.phase) && s1.nread > MAX_HEADER_SIZE then Fail(s1, HeaderOverflow) else Act(s1, ch)
  }

  /** What the assertions of the parser state: in a body some of it is left, and a chunk's size line
      starts with the count at zero. A length that was read is never the value that means "unset". */
  predicate Sound(s: State)
  {
    && (s.phase == Data || s.phase == Identity ==> s.length > 0)
    && (s.phase == DataAlmost ==> s.length == 0)
    && (s.phase == SizeStart && s.errno == Ok ==> s.nread == 0)
    && s.length <= ULLONG_MAX && (s.phase != SizeStart && s.phase != IdentityEof ==> s.length < ULLONG_MAX)
  }

  lemma StepKeepsSound(s: State, ch: Byte)
    requires !Stopped(s) && Sound(s)
    ensures Sound(Step(s, ch).0)
  {
  }

  /** A stretch of bytes: the state, the events, and how many bytes were taken before the parser stopped. */
  function Feed(s: State, bs: seq<Byte>): (r: (State, seq<Event>, nat))
    requires Sound(s)
    ensures Sound(r.0) && r.2 <= |bs|
    ensures !Stopped(r.0) ==> r.2 == |bs|
    decreases |bs|
  {
    if bs == [] || Stopped(s) then (s, [], 0)
    else
      StepKeepsSound(s, bs[0]);
      var (s1, ev) := Step(s, bs[0]);
      if s1.errno != Ok then (s1, ev, 0)
      else
        var (s2, more, n) := Feed(s1, bs[1..]);
        (s2, ev + more, n + 1)
  }

  /** One call of http_parser_execute: nothing happens after an error; a call without bytes tells the end
      of the connection, which ends a body of unknown length and is an error inside any other message. */
  function OneCall(s: State, bs: seq<Byte>): (r: (State, seq<Event>, nat))
    requires Sound(s)
    ensures Sound(r.0)
  {
    if s.errno != Ok then (s, [], 0)
    else if bs != [] then Feed(s, bs)
    else if s.phase == IdentityEof then (s, [MessageComplete], 0)
    else if s.phase == Complete then (s, [], 0)
    else (s.(errno := InvalidEof), [], 1)
  }

  /** What comes after a stretch in which the parser did not stop. */
  function Then(r: (State, seq<Event>, nat), q: (State, seq<Event>, nat)): (State, seq<Event>, nat)
  {
    (q.0, r.1 + q.1, r.2 + q.2)
  }

  /** Cutting a stretch in two changes nothing. */
  lemma {:induction false} FeedAppend(s: State, a: seq<Byte>, b: seq<Byte>)
    requires Sound(s)
    ensures Feed(s, a).0.errno == Ok ==> Feed(s, a + b) == Then(Feed(s, a), Feed(Feed(s, a).0, b))
    ensures Feed(s, a).0.errno != Ok ==> Feed(s, a + b) == Feed(s, a)
    decreases |a|
  {
    hide Step, Feed, Then;
    if a == [] || Stopped(s) {
      FeedNone(s, a);
      if a == [] {
        assert a + b == b;
      }
      if Stopped(s) {
        FeedNone(s, b);
        FeedNone(s, a + b);
      }
      ThenNothing(s, Feed(s, b));
    } else {
      var (s1, ev) := Step(s, a[0]);
      FeedHead(s, a);
      assert (a + b)[0] == a[0] && (a + b)[1..] == a[1..] + b;
      FeedHead(s, a + b);
      if s1.errno == Ok {
        FeedAppend(s1, a[1..], b);
        ThenAssoc((s1, ev, 1), Feed(s1, a[1..]), Feed(Feed(s1, a[1..]).0, b));
      }
    }
  }

  lemma FeedNone(s: State, bs: seq<Byte>)
    requires Sound(s) && (bs == [] || Stopped(s))
    ensures Feed(s, bs) == (s, [], 0)
  {
  }

  lemma FeedHead(s: State, bs: seq<Byte>)
    requires Sound(s) && bs != [] && !Stopped(s)
    ensures Sound(Step(s, bs[0]).0)
    ensures var (s1, ev) := Step(s, bs[0]);
            Feed(s, bs) == if s1.errno != Ok then (s1, ev, 0) else Then((s1, ev, 1), Feed(s1, bs[1..]))
  {
    StepKeepsSound(s, bs[0]);
  }

  lemma ThenNothing(s: State, q: (State, seq<Event>, nat))
    ensures Then((s, [], 0), q) == q
  {
    assert [] + q.1 == q.1;
  }

  lemma ThenAssoc(p: (State, seq<Event>, nat), r: (State, seq<Event>, nat), q: (State, seq<Event>, nat))
    ensures Then(p, Then(r, q)) == Then(Then(p, r), q) && Then(p, r).0 == r.0
  {
    assert p.1 + (r.1 + q.1) == (p.1 + r.1) + q.1;
  }

  // ---------- stretches of body bytes ----------

  function Bodies(bs: seq<Byte>): (ev: seq<Event>)
    ensures |ev| == |bs| && forall i :: 0 <= i < |ev| ==> ev[i] == Body(bs[i])
  {
    if bs == [] then [] else [Body(bs[0])] + Bodies(bs[1..])
  }

  lemma BodiesAppend(a: seq<Byte>, b: seq<Byte>)
    ensures Bodies(a + b) == Bodies(a) + Bodies(b)
  {
  }

  /** The state after k body bytes. */
  function After(s: State, k: nat): State
    requires s.phase == Data || s.phase == Identity ==> k <= s.length
  {
    match s.phase
    case Data => s.(phase := if k == s.length then DataAlmost else Data, length := s.length - k)
    case Identity => s.(phase := if k == s.length then Complete else Identity, length := s.length - k)
    case _ => s
  }

  predicate InBody(p: Phase)
  {
    p == Data || p == Identity || p == IdentityEof
  }

  function BulkEvents(s: State, bs: seq<Byte>): seq<Event>
  {
    Bodies(bs) + (if s.phase == Identity && |bs| == s.length then [MessageComplete] else [])
  }

  lemma BodyStep(s: State, b: Byte)
    requires Sound(s) && s.errno == Ok && InBody(s.phase)
    ensures Step(s, b) == (After(s, 1), BulkEvents(s, [b]))
  {
    assert Bodies([b]) == [Body(b)];
    assert [Body(b)] + [] == [Body(b)] && [Body(b)] + [MessageComplete] == [Body(b), MessageComplete];
  }

  lemma BulkHead(s: State, b: Byte, rest: seq<Byte>)
    requires Sound(s) && s.errno == Ok && InBody(s.phase) && rest != []
    requires s.phase != IdentityEof ==> |rest| + 1 <= s.length
    ensures Sound(After(s, 1)) && After(s, 1).errno == Ok && After(s, 1).phase == s.phase
    ensures BulkEvents(s, [b] + rest) == BulkEvents(s, [b]) + BulkEvents(After(s, 1), rest)
    ensures After(After(s, 1), |rest|) == After(s, |rest| + 1)
  {
    BodiesAppend([b], rest);
    hide Bodies;
    AssocTail(Bodies([b]), Bodies(rest), []);
    AssocTail(Bodies([b]), Bodies(rest), [MessageComplete]);
  }

  lemma AssocTail(a: seq<Event>, b: seq<Event>, t: seq<Event>)
    ensures (a + b) + t == (a + []) + (b + t)
  {
  }

  /** Body bytes taken in one go are the same bytes taken one by one. */
  lemma {:induction false} FeedBody(s: State, bs: seq<Byte>, k: nat)
    requires Sound(s) && s.errno == Ok && InBody(s.phase) && 0 < k <= |bs|
    requires s.phase != IdentityEof ==> k <= s.length
    ensures Sound(After(s, k)) && After(s, k).errno == Ok
    ensures Feed(s, bs) == Then((After(s, k), BulkEvents(s, bs[..k]), k), Feed(After(s, k), bs[k..]))
    decreases k
  {
    hide Step, Feed, Then, After, BulkEvents;
    FeedHead(s, bs);
    BodyStep(s, bs[0]);
    assert bs[..1] == [bs[0]];
    AfterKeeps(s, k);
    AfterKeeps(s, 1);
    if k > 1 {
      var rest := bs[1..][..k - 1];
      BulkHead(s, bs[0], rest);
      var s1 := After(s, 1);
      FeedBody(s1, bs[1..], k - 1);
      assert bs[1..][k - 1..] == bs[k..] && [bs[0]] + rest == bs[..k];
      ThenJoins(s1, BulkEvents(s, [bs[0]]), 1, After(s, k), BulkEvents(s1, rest), k - 1, Feed(After(s, k), bs[k..]));
    }
  }

  lemma AfterKeeps(s: State, k: nat)
    requires Sound(s) && s.errno == Ok && InBody(s.phase) && 0 < k && (s.phase != IdentityEof ==> k <= s.length)
    ensures Sound(After(s, k)) && After(s, k).errno == Ok
    ensures s.phase != IdentityEof && k < s.length ==>
              After(s, k).phase == s.phase && After(s, k).length == s.length - k
    ensures s.phase == IdentityEof ==> After(s, k) == s
  {
  }

  lemma ThenJoins(s1: State, ev: seq<Event>, m: nat, s2: State, more: seq<Event>, n: nat, q: (State, seq<Event>, nat))
    ensures Then((s1, ev, m), Then((s2, more, n), q)) == Then((s2, ev + more, m + n), q)
  {
    assert ev + (more + q.1) == ev + more + q.1;
  }
}
