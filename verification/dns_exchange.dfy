/** A lookup from end to end (sections 4.1.1 to 4.1.4 of RFC 1035): the client's query, the server's reply
    and the client's answer loop, of app/st_dns/dns.cpp and app/st_dns/dns_proto.h on a little-endian host. */
module DnsExchange {
  import opened Bytes
  import opened Queues
  import opened DnsNames

  const HEADER: nat := 12
  const MAX_PACKET: nat := 512
  const MAX_NAME: nat := 256
  const TYPE_A: nat := 1
  const TYPE_CNAME: nat := 5
  const CLASS_IN: nat := 1

  /** A 16-bit number in network order. */
  function U16(s: seq<Byte>, p: nat): nat
    requires p + 2 <= |s|
  {
    var hi: int := s[p];
    hi * 256 + s[p + 1]
  }

  function U32(s: seq<Byte>, p: nat): nat
    requires p + 4 <= |s|
  {
    U16(s, p) * 65536 + U16(s, p + 2)
  }

  // ---------- the client's query ----------

  /** The send buffer with some bytes written at p. */
  function Written(buf: seq<Byte>, p: nat, bytes: seq<Byte>): (r: seq<Byte>)
    requires p + |bytes| <= |buf|
    ensures |r| == |buf|
  {
    buf[..p] + bytes + buf[p + |bytes|..]
  }

  /** The identifier 1 in host order, recursion desired, one question. */
  const QUERY_HEAD: seq<Byte> := [1, 0, 1, 0, 0, 1, 0, 0, 0, 0, 0, 0]

  /** set_dns_head. */
  function SetDnsHead(buf: seq<Byte>, name: seq<Byte>): (r: seq<Byte>)
    requires |buf| == MAX_PACKET && |name| <= MAX_NAME && |Backward(name).0| <= MAX_NAME + 2
    ensures |r| == |buf|
  {
    var (t, n) := Backward(name);
    Written(Written(Written(buf, 0, QUERY_HEAD), HEADER, t), HEADER + n, [0, TYPE_A as Byte, 0, CLASS_IN as Byte])
  }

  /** make_dns_query_format: what is sent. */
  function MakeQuery(buf: seq<Byte>, name: seq<Byte>): Option<seq<Byte>>
    requires |buf| == MAX_PACKET
  {
    if |name| > MAX_NAME then None
    else
      BackwardLength(name);
      Some(SetDnsHead(buf, name)[..HEADER + 4 + |name| + 2])
  }

  lemma {:induction false} BackwardLength(name: seq<Byte>)
    ensures |Wire(Split(name))| == |name| + 2
    decreases |name|
  {
    var n := FirstDot(name);
    if n < |name| {
      BackwardLength(name[n + 1..]);
      WireCons(name[..n], Split(name[n + 1..]));
    } else {
      WireCons(name, []);
      assert [name] + [] == [name];
    }
  }

  /** The query as it should be. */
  function QueryFor(labels: seq<seq<Byte>>): seq<Byte>
  {
    QUERY_HEAD + Wire(labels) + [0, 1, 0, 1]
  }

  // ---------- the server's reply ----------

  /** b with the bit of weight k set. */
  function SetBit(b: Byte, k: nat): Byte
    requires k == 4 || k == 128
  {
    if (b / k) % 2 == 1 then b else if b + k < 256 then b + k else b
  }

  /** Response, authoritative, recursion available, no error; one question, an answers. */
  function ReplyHead(query: seq<Byte>, an: Byte): (r: seq<Byte>)
    requires |query| >= HEADER
    ensures |r| == HEADER
  {
    var flags := SetBit(query[3], 128);
    query[..2] + [SetBit(SetBit(query[2], 128), 4), flags - flags % 16, 0, 1, 0, an, 0, 0, 0, 0]
  }

  /** A pointer to the question's name, A, IN, 60 seconds, 127.0.0.1. */
  const ANSWER: seq<Byte> := [0xC0, 0x0C, 0, 1, 0, 1, 0, 0, 0, 60, 0, 4, 127, 0, 0, 1]

  /** The question of a packet the server does not drop. */
  function Question(query: seq<Byte>): Option<Read>
  {
    if |query| < HEADER || |query| > MAX_PACKET || U16(query, 4) < 1 then None
    else
      match DecodeQname(query, HEADER, MAX_NAME)
      case None => None
      case Some(q) => if q.end + 4 > |query| then None else Some(q)
  }

  /** It asks for the address of a name in the zone. */
  predicate WantsAddress(query: seq<Byte>, q: Read)
    requires q.end + 4 <= |query|
  {
    U16(query, q.end) == TYPE_A && U16(query, q.end + 2) == CLASS_IN && InZone(q.name)
  }

  /** st_dns_build_reply. */
  function BuildReply(query: seq<Byte>, outMax: int): Option<seq<Byte>>
  {
    match Question(query)
    case None => None
    case Some(q) =>
      if outMax < |query| then None
      else if !WantsAddress(query, q) then Some(ReplyHead(query, 0) + query[HEADER..])
      else if |query| + 16 > outMax then None
      else Some(ReplyHead(query, 1) + query[HEADER..] + ANSWER)
  }

  // ---------- the client's answer loop ----------

  datatype Lookup =
    | Answers(ret: int, addrs: seq<seq<Byte>>, ttl: Option<nat>)
    | Overrun // the loop reads behind the receive buffer

  /** The loop with num answers to go; an address is its four bytes in memory. */
  function AnswerLoop(mem: seq<Byte>, p: nat, num: nat, addrs: seq<seq<Byte>>, ttl: Option<nat>): Lookup
    decreases num
  {
    if num == 0 then Answers(if addrs == [] then -1 else 0, addrs, ttl)
    else if p + 10 > |mem| then Overrun
    else
      var ttl' := Some(U32(mem, p + 6));
      if U16(mem, p + 2) == TYPE_A then
        if p + 16 > |mem| then Overrun else AnswerLoop(mem, p + 16, num - 1, addrs + [mem[p + 12..p + 16]], ttl')
      else if U16(mem, p + 2) == TYPE_CNAME then
        if p + 12 > |mem| then Overrun else AnswerLoop(mem, p + 12 + U16(mem, p + 10), num - 1, addrs, ttl')
      else Answers(0, addrs, ttl')
  }

  /** What dns_lookup makes of the receive buffer after a query of queryLen bytes. */
  function DnsLookup(mem: seq<Byte>, queryLen: nat): Lookup
    requires |mem| >= HEADER
  {
    AnswerLoop(mem, queryLen, U16(mem, 6), [], None)
  }

  // ---------- the exchange ----------

  /** The count of answers in a reply, and the answer. */
  lemma ReplyParts(query: seq<Byte>, outMax: int)
    requires BuildReply(query, outMax).Some?
    ensures Question(query).Some? && |query| >= HEADER
    ensures var r := BuildReply(query, outMax).value;
            if WantsAddress(query, Question(query).value)
            then |r| == |query| + 16 && r[6] == 0 && r[7] == 1 && r[|query|..] == ANSWER
            else |r| == |query| && r[6] == 0 && r[7] == 0
  {
    hide WantsAddress, SetBit, DecodeQname;
    var r := BuildReply(query, outMax).value;
    var w := WantsAddress(query, Question(query).value);
    if w {
      assert r == (ReplyHead(query, 1) + query[HEADER..]) + ANSWER;
      assert r[7] == ReplyHead(query, 1)[7] && r[6] == ReplyHead(query, 1)[6];
    } else {
      assert r[7] == ReplyHead(query, 0)[7] && r[6] == ReplyHead(query, 0)[6];
    }
  }

  lemma NoAnswer(mem: seq<Byte>, p: nat)
    ensures AnswerLoop(mem, p, 0, [], None) == Answers(-1, [], None)
  {
  }

  /** Whatever lies behind the reply in the receive buffer: the client finds 127.0.0.1 for 60 seconds
      exactly when the query asks for an address in the zone, and no address else. */
  lemma ReplyIsUnderstood(query: seq<Byte>, outMax: int, mem: seq<Byte>)
    requires BuildReply(query, outMax).Some? && BuildReply(query, outMax).value <= mem
    ensures Question(query).Some? && |mem| >= |query| >= HEADER
    ensures DnsLookup(mem, |query|)
            == if WantsAddress(query, Question(query).value) then Answers(0, [[127, 0, 0, 1]], Some(60))
               else Answers(-1, [], None)
  {
    var q := Question(query).value;
    var r := BuildReply(query, outMax).value;
    ReplyParts(query, outMax);
    hide Question, WantsAddress, InZone, BuildReply, AnswerLoop, SetBit;
    assert mem[6] == r[6] && mem[7] == r[7];
    if WantsAddress(query, q) {
      assert mem[|query|..|query| + 16] == r[|query|..];
      AnswerRead(mem, |query|);
    } else {
      NoAnswer(mem, |query|);
    }
  }

  lemma AnswerRead(mem: seq<Byte>, p: nat)
    requires p + 16 <= |mem| && mem[p..p + 16] == ANSWER
    ensures AnswerLoop(mem, p, 1, [], None) == Answers(0, [[127, 0, 0, 1]], Some(60))
  {
    var m := mem[p..p + 16];
    assert mem[p + 2] == m[2] == 0 && mem[p + 3] == m[3] == 1;
    assert mem[p + 6] == m[6] == 0 && mem[p + 7] == m[7] == 0 && mem[p + 8] == m[8] == 0 && mem[p + 9] == m[9] == 60;
    assert mem[p + 12] == m[12] == 127 && mem[p + 13] == m[13] == 0
           && mem[p + 14] == m[14] == 0 && mem[p + 15] == m[15] == 1;
    assert mem[p + 12..p + 16] == [127, 0, 0, 1];
    assert U16(mem, p + 2) == 1 && U32(mem, p + 6) == 60;
    OneAnswer(mem, p);
  }

  lemma OneAnswer(mem: seq<Byte>, p: nat)
    requires p + 16 <= |mem| && U16(mem, p + 2) == TYPE_A
    ensures AnswerLoop(mem, p, 1, [], None) == Answers(0, [mem[p + 12..p + 16]], Some(U32(mem, p + 6)))
  {
    hide U16, U32;
    var none: seq<seq<Byte>> := [];
    assert none + [mem[p + 12..p + 16]] == [mem[p + 12..p + 16]];
  }

  lemma {:induction false} JoinLength(labels: seq<seq<Byte>>)
    requires labels != [] && GoodLabels(labels)
    ensures |Wire(labels)| == |Join(labels)| + 2 && |Join(labels)| + 1 >= 2 * |labels|
  {
    if |labels| > 1 {
      JoinLength(labels[1..]);
    } else {
      assert labels[1..] == [];
    }
  }

  lemma {:induction false} PlainIsCStrings(labels: seq<seq<Byte>>)
    requires Plain(labels)
    ensures CStrings(labels)
  {
    if labels != [] {
      PlainIsCStrings(labels[1..]);
    }
  }

  lemma BackwardJoin(labels: seq<seq<Byte>>)
    requires labels != [] && GoodLabels(labels) && Plain(labels)
    ensures Backward(Join(labels)) == (Wire(labels), |Wire(labels)|)
  {
    hide *;
    SplitJoin(labels);
    PlainIsCStrings(labels);
    BackwardSplit(Join(labels), labels);
  }

  lemma BackwardSplit(name: seq<Byte>, labels: seq<seq<Byte>>)
    requires Split(name) == labels && GoodLabels(labels) && CStrings(labels)
    ensures Backward(name) == (Wire(labels), |Wire(labels)|)
  {
    hide Split, Wire, GoodLabels, CStrings, StrLen;
    WireBytes(labels);
    WireEnds(labels);
    StrLenIs(Wire(labels), |Wire(labels)| - 1);
  }

  lemma {:induction false} LabelsJoin(labels: seq<seq<Byte>>)
    requires GoodLabels(labels) && Plain(labels)
    ensures Labels(Join(labels)) == labels
  {
    if |labels| == 1 {
      FirstDotIs(labels[0], |labels[0]|);
      OneLabel(labels[0]);
      assert [labels[0]] == labels;
    } else if labels != [] {
      LabelsJoin(labels[1..]);
      hide Labels, Join, GoodLabels, Plain;
      FirstLabel(labels);
      assert [labels[0]] + labels[1..] == labels;
    }
  }

  lemma OneLabel(l: seq<Byte>)
    requires l != [] && FirstDot(l) == |l|
    ensures Labels(l) == [l]
  {
    hide FirstDot;
    assert l[..|l|] == l;
    assert [l] + [] == [l];
  }

  lemma FirstLabel(labels: seq<seq<Byte>>)
    requires |labels| > 1 && DotFree(labels[0])
    ensures Labels(Join(labels)) == [labels[0]] + Labels(Join(labels[1..]))
  {
    var name, n := Join(labels), |labels[0]|;
    assert name == labels[0] + [DOT] + Join(labels[1..]);
    FirstDotIs(name, n);
    hide FirstDot, Join;
    assert name[..n] == labels[0] && name[n + 1..] == Join(labels[1..]);
  }

  /** Both encoders write the same bytes for a name, and the decoder gives the name back. */
  lemma NameRoundTrip(labels: seq<seq<Byte>>, outMax: int)
    requires labels != [] && GoodLabels(labels) && Plain(labels)
    requires |Join(labels)| <= 253 && outMax >= |Join(labels)| + 2
    ensures EncodeQname(Join(labels), outMax) == Some(Wire(labels))
    ensures Backward(Join(labels)) == (Wire(labels), |Wire(labels)|)
    ensures DecodeQname(Wire(labels), 0, MAX_NAME) == Some(Read(Join(labels), |Wire(labels)|))
  {
    hide Wire, Join, Labels, GoodLabels, Plain, Backward, EncodeQname, DecodeQname, WireAt;
    BackwardJoin(labels);
    LabelsJoin(labels);
    JoinLength(labels);
    EncodeExact(Join(labels), outMax);
    WholeWire(labels);
    DecodeExact(Wire(labels), 0, labels, MAX_NAME);
  }

  lemma WholeWire(labels: seq<seq<Byte>>)
    ensures WireAt(Wire(labels), 0, labels)
  {
    hide Wire;
    assert Wire(labels)[0..|Wire(labels)|] == Wire(labels);
  }

  /** The query sent does not depend on what was left in the send buffer. */
  lemma QueryIs(buf: seq<Byte>, labels: seq<seq<Byte>>)
    requires labels != [] && GoodLabels(labels) && Plain(labels) && |Join(labels)| <= 253 && |buf| == MAX_PACKET
    ensures MakeQuery(buf, Join(labels)) == Some(QueryFor(labels))
  {
    BackwardJoin(labels);
    JoinLength(labels);
    var w := Wire(labels);
    hide Wire, Join, GoodLabels, Plain, Written, Backward;
    ThreeWrites(buf, QUERY_HEAD, w, [0, 1, 0, 1]);
  }

  lemma ThreeWrites(buf: seq<Byte>, a: seq<Byte>, b: seq<Byte>, c: seq<Byte>)
    requires |a| + |b| + |c| <= |buf|
    ensures Written(Written(Written(buf, 0, a), |a|, b), |a| + |b|, c)[..|a| + |b| + |c|] == a + b + c
  {
    WrittenPrefix(buf, [], a);
    assert [] + a == a;
    WrittenPrefix(Written(buf, 0, a), a, b);
    WrittenPrefix(Written(Written(buf, 0, a), |a|, b), a + b, c);
  }

  lemma WrittenPrefix(buf: seq<Byte>, a: seq<Byte>, b: seq<Byte>)
    requires |a| + |b| <= |buf| && buf[..|a|] == a
    ensures Written(buf, |a|, b)[..|a| + |b|] == a + b
  {
  }

  /** The server reads the question the client asked. */
  lemma QuestionIs(labels: seq<seq<Byte>>)
    requires labels != [] && GoodLabels(labels) && Plain(labels) && |Join(labels)| <= 253
    ensures var q := QueryFor(labels);
            && Question(q) == Some(Read(Join(labels), |q| - 4))
            && (WantsAddress(q, Question(q).value) <==> InZone(Join(labels)))
  {
    JoinLength(labels);
    var q, w := QueryFor(labels), Wire(labels);
    assert q[HEADER..HEADER + |w|] == w;
    DecodeExact(q, HEADER, labels, MAX_NAME);
    assert q[|q| - 4..] == [0, 1, 0, 1];
  }

  /** From end to end: for every name of plain labels of 1 to 63 bytes and at most 253 bytes in all, the
      answer to the client's query is 127.0.0.1 for 60 seconds when the name lies in the zone, else none. */
  lemma EndToEnd(buf: seq<Byte>, labels: seq<seq<Byte>>, outMax: int, mem: seq<Byte>)
    requires labels != [] && GoodLabels(labels) && Plain(labels) && |Join(labels)| <= 253
    requires |buf| == MAX_PACKET && outMax == MAX_PACKET
    ensures MakeQuery(buf, Join(labels)).Some?
    ensures var query := MakeQuery(buf, Join(labels)).value;
            && BuildReply(query, outMax).Some?
            && (BuildReply(query, outMax).value <= mem ==>
                 && |mem| >= HEADER
                 && DnsLookup(mem, |query|)
                    == if Under(labels, [BENCH, LOCAL]) || Under(labels, [BENCH, STHREAD, LOCAL])
                       then Answers(0, [[127, 0, 0, 1]], Some(60))
                       else Answers(-1, [], None))
  {
    var query := QueryFor(labels);
    QueryIs(buf, labels);
    QuestionIs(labels);
    ZoneIsLabels(labels);
    JoinLength(labels);
    hide Join, Wire, Under, InZone, Question, WantsAddress, Plain, GoodLabels, DnsLookup;
    assert |query| <= 271;
    if BuildReply(query, outMax).Some? && BuildReply(query, outMax).value <= mem {
      ReplyIsUnderstood(query, outMax, mem);
    }
  }
}
