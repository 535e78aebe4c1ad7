/** What a lookup makes of the answers of any server: resource records as section 4.1.3 of RFC 1035 lays them
    out, with the owner's name as a pointer of two bytes. */
module DnsAnswers {
  import opened Bytes
  import opened Queues
  import opened DnsNames
  import opened DnsExchange

  /** A resource record: the two bytes of its owner, type, class, time to live and data. */
  datatype Record = Record(owner: seq<Byte>, kind: nat, class16: nat, ttl: nat, data: seq<Byte>)

  /** The fields have their widths, and an address has four bytes. */
  ghost predicate RecordOk(r: Record)
  {
    && |r.owner| == 2 && r.kind < 0x1_0000 && r.class16 < 0x1_0000 && r.ttl < 0x1_0000_0000
    && |r.data| < 0x1_0000 && (r.kind == TYPE_A ==> |r.data| == 4)
  }

  /** A number of 16 bits in network order. */
  function Net16(n: nat): (b: seq<Byte>)
    requires n < 0x1_0000
    ensures |b| == 2
  {
    [n / 256, n % 256]
  }

  function Net32(n: nat): (b: seq<Byte>)
    requires n < 0x1_0000_0000
    ensures |b| == 4
  {
    Net16(n / 0x1_0000) + Net16(n % 0x1_0000)
  }

  function RecordBytes(r: Record): (b: seq<Byte>)
    requires RecordOk(r)
    ensures |b| == 12 + |r.data|
  {
    r.owner + Net16(r.kind) + Net16(r.class16) + Net32(r.ttl) + Net16(|r.data|) + r.data
  }

  ghost predicate AllOk(rs: seq<Record>)
  {
    forall i :: 0 <= i < |rs| ==> RecordOk(rs[i])
  }

  /** The records one behind the other. */
  function Section(rs: seq<Record>): seq<Byte>
    requires AllOk(rs)
  {
    if rs == [] then [] else RecordBytes(rs[0]) + Section(rs[1..])
  }

  /** The addresses, in order. */
  function Addresses(rs: seq<Record>): seq<seq<Byte>>
  {
    if rs == [] then [] else (if rs[0].kind == TYPE_A then [rs[0].data] else []) + Addresses(rs[1..])
  }

  /** The records the lookup goes on behind. */
  ghost predicate Followed(rs: seq<Record>)
  {
    forall i :: 0 <= i < |rs| ==> rs[i].kind == TYPE_A || rs[i].kind == TYPE_CNAME
  }

  /** The bytes b are in memory at p. */
  ghost predicate Holds(mem: seq<Byte>, p: nat, b: seq<Byte>)
  {
    p + |b| <= |mem| && mem[p..p + |b|] == b
  }

  lemma HoldsParts(mem: seq<Byte>, p: nat, a: seq<Byte>, b: seq<Byte>)
    requires Holds(mem, p, a + b)
    ensures Holds(mem, p, a) && Holds(mem, p + |a|, b)
  {
    assert mem[p..p + |a|] == mem[p..p + |a + b|][..|a|] == a;
    assert mem[p + |a|..p + |a| + |b|] == mem[p..p + |a + b|][|a|..] == b;
  }

  lemma Read16(mem: seq<Byte>, p: nat, n: nat)
    requires n < 0x1_0000 && Holds(mem, p, Net16(n))
    ensures U16(mem, p) == n
  {
    assert mem[p] == mem[p..p + 2][0] && mem[p + 1] == mem[p..p + 2][1];
  }

  lemma Read32(mem: seq<Byte>, p: nat, n: nat)
    requires n < 0x1_0000_0000 && Holds(mem, p, Net32(n))
    ensures U32(mem, p) == n
  {
    HoldsParts(mem, p, Net16(n / 0x1_0000), Net16(n % 0x1_0000));
    Read16(mem, p, n / 0x1_0000);
    Read16(mem, p + 2, n % 0x1_0000);
  }

  /** The fields of a record where the loop looks for them. */
  lemma FieldsOf(mem: seq<Byte>, p: nat, r: Record)
    requires RecordOk(r) && Holds(mem, p, RecordBytes(r))
    ensures p + 12 + |r.data| <= |mem| && U16(mem, p + 2) == r.kind && U32(mem, p + 6) == r.ttl
    ensures U16(mem, p + 10) == |r.data| && mem[p + 12..p + 12 + |r.data|] == r.data
  {
    var a := r.owner + Net16(r.kind) + Net16(r.class16) + Net32(r.ttl) + Net16(|r.data|);
    HoldsParts(mem, p, a, r.data);
    HoldsParts(mem, p, r.owner + Net16(r.kind) + Net16(r.class16) + Net32(r.ttl), Net16(|r.data|));
    HoldsParts(mem, p, r.owner + Net16(r.kind) + Net16(r.class16), Net32(r.ttl));
    HoldsParts(mem, p, r.owner + Net16(r.kind), Net16(r.class16));
    HoldsParts(mem, p, r.owner, Net16(r.kind));
    Read16(mem, p + 2, r.kind);
    Read32(mem, p + 6, r.ttl);
    Read16(mem, p + 10, |r.data|);
  }

  /** The time to live of the last record, or `before` when there is none. */
  function LastTtl(rs: seq<Record>, before: Option<nat>): Option<nat>
  {
    if rs == [] then before else Some(rs[|rs| - 1].ttl)
  }

  /** One turn of the loop at an address or an alias. */
  lemma OneRecord(mem: seq<Byte>, p: nat, r: Record, num: nat, addrs: seq<seq<Byte>>, ttl: Option<nat>)
    requires RecordOk(r) && Holds(mem, p, RecordBytes(r)) && (r.kind == TYPE_A || r.kind == TYPE_CNAME) && num > 0
    ensures AnswerLoop(mem, p, num, addrs, ttl)
         == AnswerLoop(mem, p + |RecordBytes(r)|, num - 1, addrs + (if r.kind == TYPE_A then [r.data] else []),
                       Some(r.ttl))
  {
    hide U16, U32, Net16, Net32;
    FieldsOf(mem, p, r);
    assert addrs + [] == addrs;
  }

  /** The loop over addresses and aliases with whatever is to come behind them. */
  lemma {:induction false} LoopReads(mem: seq<Byte>, p: nat, rs: seq<Record>, more: nat, addrs: seq<seq<Byte>>,
        ttl: Option<nat>)
    requires AllOk(rs) && Followed(rs) && Holds(mem, p, Section(rs))
    ensures AnswerLoop(mem, p, |rs| + more, addrs, ttl)
         == AnswerLoop(mem, p + |Section(rs)|, more, addrs + Addresses(rs), LastTtl(rs, ttl))
    decreases |rs|
  {
    hide AnswerLoop, RecordOk, RecordBytes, Holds;
    if rs == [] {
      assert addrs + [] == addrs;
    } else {
      var r, rest := rs[0], rs[1..];
      var mine := if r.kind == TYPE_A then [r.data] else [];
      HoldsParts(mem, p, RecordBytes(r), Section(rest));
      OneRecord(mem, p, r, |rs| + more, addrs, ttl);
      LoopReads(mem, p + |RecordBytes(r)|, rest, more, addrs + mine, Some(r.ttl));
      assert (addrs + mine) + Addresses(rest) == addrs + (mine + Addresses(rest));
    }
  }

  /** For every list of address and alias records behind the query, as many as the header counts, whatever lies
      behind them: the lookup gives the addresses in order and the last record's time to live, and fails
      exactly when there is no address. */
  lemma LookupReads(mem: seq<Byte>, queryLen: nat, rs: seq<Record>)
    requires |mem| >= HEADER && U16(mem, 6) == |rs|
    requires AllOk(rs) && Followed(rs) && Holds(mem, queryLen, Section(rs))
    ensures DnsLookup(mem, queryLen)
         == Answers(if Addresses(rs) == [] then -1 else 0, Addresses(rs), LastTtl(rs, None))
  {
    hide U16, Section, Addresses, Followed, AllOk;
    LoopReads(mem, queryLen, rs, 0, [], None);
    assert [] + Addresses(rs) == Addresses(rs);
  }

  /** A record of another type ends the lookup, which then succeeds with the addresses before it, even if
      there are none, and with that record's time to live. */
  lemma OtherTypeStops(mem: seq<Byte>, queryLen: nat, rs: seq<Record>, r: Record)
    requires |mem| >= HEADER && U16(mem, 6) > |rs|
    requires AllOk(rs) && Followed(rs) && RecordOk(r) && r.kind != TYPE_A && r.kind != TYPE_CNAME
    requires Holds(mem, queryLen, Section(rs) + RecordBytes(r))
    ensures DnsLookup(mem, queryLen) == Answers(0, Addresses(rs), Some(r.ttl))
  {
    hide Section, Addresses, Followed, AllOk, U32, RecordBytes;
    HoldsParts(mem, queryLen, Section(rs), RecordBytes(r));
    LoopReads(mem, queryLen, rs, U16(mem, 6) - |rs|, [], None);
    assert [] + Addresses(rs) == Addresses(rs);
    FieldsOf(mem, queryLen + |Section(rs)|, r);
  }

  // ---------- the server's side ----------

  /** The bit of weight 128 changes nothing below it. */
  lemma BelowTop(b: Byte)
    requires b < 128
    ensures (b + 128) % 4 == b % 4 && (b + 128) / 8 == b / 8 + 16 && (b + 128) / 16 == b / 16 + 8
  {
  }

  lemma TopBit(b: Byte)
    ensures SetBit(b, 128) == if b < 128 then b + 128 else b
  {
  }

  lemma BitOfFour(b: Byte)
    ensures var c := SetBit(b, 4); b <= c && (c / 4) % 2 == 1 && c % 4 == b % 4 && c / 8 == b / 8
  {
    var h := b / 8;
    var l := b - 8 * h;
    assert l < 8 && b / 4 == 2 * h + l / 4;
  }

  /** QR, AA, opcode, TC and RD. */
  lemma FirstFlags(b: Byte)
    ensures var r := SetBit(SetBit(b, 128), 4);
            r / 128 == 1 && (r / 4) % 2 == 1 && (r / 8) % 16 == (b / 8) % 16 && r % 4 == b % 4
  {
    hide SetBit;
    TopBit(b);
    BitOfFour(SetBit(b, 128));
    if b < 128 {
      BelowTop(b);
    }
  }

  /** RA, the bits behind it, and RCODE. */
  lemma SecondFlags(b: Byte)
    ensures var c := SetBit(b, 128);
            var r := c - c % 16;
            r / 128 == 1 && (r / 16) % 8 == (b / 16) % 8 && r % 16 == 0
  {
    hide SetBit;
    TopBit(b);
    var c := SetBit(b, 128);
    NoLowBits(c);
    if b < 128 {
      BelowTop(b);
    }
  }

  lemma NoLowBits(c: Byte)
    requires c >= 128
    ensures var r := c - c % 16; r % 16 == 0 && r / 16 == c / 16 && r / 128 == 1
  {
  }

  /** The reply is its header, the query behind the header, and 16 bytes for each answer. */
  lemma ReplyShape(query: seq<Byte>, outMax: int)
    requires BuildReply(query, outMax).Some?
    ensures |query| >= HEADER && Question(query).Some?
    ensures var r := BuildReply(query, outMax).value;
            var an := if WantsAddress(query, Question(query).value) then 1 else 0;
            |r| == |query| + 16 * an && r[..HEADER] == ReplyHead(query, an)
            && r[HEADER..|query|] == query[HEADER..]
  {
    hide WantsAddress, ReplyHead, DecodeQname;
    var r := BuildReply(query, outMax).value;
    if WantsAddress(query, Question(query).value) {
      assert r == ReplyHead(query, 1) + (query[HEADER..] + ANSWER);
      assert r[..HEADER] == ReplyHead(query, 1);
    } else {
      assert r[..HEADER] == ReplyHead(query, 0);
    }
  }

  /** The reply to a query has its identifier, opcode and question, says that it is an authoritative response
      with recursion available and no error, and counts one question, its answers, and nothing else. */
  lemma ReplyHeader(query: seq<Byte>, outMax: int)
    requires BuildReply(query, outMax).Some?
    ensures |query| >= HEADER && Question(query).Some?
    ensures var r := BuildReply(query, outMax).value;
            && |r| >= |query| && r[..2] == query[..2] && r[HEADER..|query|] == query[HEADER..]
            && r[2] / 128 == 1 && (r[2] / 4) % 2 == 1                                  // QR and AA
            && (r[2] / 8) % 16 == (query[2] / 8) % 16 && r[2] % 4 == query[2] % 4      // opcode, TC and RD
            && r[3] / 128 == 1 && r[3] % 16 == 0 && (r[3] / 16) % 8 == (query[3] / 16) % 8 // RA, RCODE, the rest
            && U16(r, 4) == 1 && U16(r, 8) == 0 && U16(r, 10) == 0
            && U16(r, 6) == (|r| - |query|) / 16
  {
    hide BuildReply, Question, WantsAddress, SetBit;
    ReplyShape(query, outMax);
    FirstFlags(query[2]);
    SecondFlags(query[3]);
    var r := BuildReply(query, outMax).value;
    var head := r[..HEADER];
    assert r[..2] == head[..2] == query[..2];
    assert r[2] == head[2] && r[3] == head[3] && r[4] == head[4] && r[5] == head[5] && r[6] == head[6];
    assert r[7] == head[7] && r[8] == head[8] && r[9] == head[9] && r[10] == head[10] && r[11] == head[11];
  }

  /** A packet of 12 to 512 bytes that counts a question and begins with one: a name of fewer than 128 labels that
      fits, and four bytes more. */
  ghost predicate Asks(query: seq<Byte>, labels: seq<seq<Byte>>)
  {
    && 12 <= |query| <= 512 && U16(query, 4) >= 1
    && GoodLabels(labels) && |labels| < 128 && WireAt(query, 12, labels)
    && (labels != [] ==> |Join(labels)| < MAX_NAME) && 12 + |Wire(labels)| + 4 <= |query|
  }

  /** It asks for an address of class IN in the zone. */
  ghost predicate Wanted(query: seq<Byte>, labels: seq<seq<Byte>>)
    requires Asks(query, labels)
  {
    var at := 12 + |Wire(labels)|;
    U16(query, at) == 1 && U16(query, at + 2) == 1 && InZone(if labels == [] then [DOT] else Join(labels))
  }

  /** A query is answered if and only if it asks something and the reply, 16 bytes longer when there is an
      address to give, has room; anything else is dropped. */
  lemma AnsweredOrDropped(query: seq<Byte>, outMax: int)
    ensures BuildReply(query, outMax).Some? <==>
              exists labels :: Asks(query, labels) && |query| + (if Wanted(query, labels) then 16 else 0) <= outMax
  {
    hide Asks, Wanted;
    if BuildReply(query, outMax).Some? {
      var labels := Asked(query);
      AnswerFits(query, outMax, labels);
    }
    forall labels | Asks(query, labels)
      ensures BuildReply(query, outMax).Some? <==> |query| + (if Wanted(query, labels) then 16 else 0) <= outMax
    {
      AnswerFits(query, outMax, labels);
    }
  }

  lemma AnswerFits(query: seq<Byte>, outMax: int, labels: seq<seq<Byte>>)
    requires Asks(query, labels)
    ensures BuildReply(query, outMax).Some? <==> |query| + (if Wanted(query, labels) then 16 else 0) <= outMax
  {
    hide InZone, Wire, Join, GoodLabels, WireAt, ReplyHead;
    DecodeExact(query, 12, labels, MAX_NAME);
  }

  /** What the question of a packet asks. */
  lemma Asked(query: seq<Byte>) returns (labels: seq<seq<Byte>>)
    requires Question(query).Some?
    ensures Asks(query, labels)
  {
    hide Wire, Join, GoodLabels, WireAt, DecodeRest;
    labels := DecodeOnlyWire(query, 12, [], 0, MAX_NAME);
    DecodeExact(query, 12, labels, MAX_NAME);
  }

  /** A query for any type and class. */
  function QueryOf(labels: seq<seq<Byte>>, kind: nat, class16: nat): seq<Byte>
    requires kind < 0x1_0000 && class16 < 0x1_0000
  {
    QUERY_HEAD + Wire(labels) + (Net16(kind) + Net16(class16))
  }

  /** The server answers with an address exactly when one of class IN is asked for and the name is in one of its
      zones; to any other question it replies without an answer. */
  lemma AnsweredExactly(labels: seq<seq<Byte>>, kind: nat, class16: nat)
    requires labels != [] && GoodLabels(labels) && Plain(labels) && |Join(labels)| <= 253
    requires kind < 0x1_0000 && class16 < 0x1_0000
    ensures BuildReply(QueryOf(labels, kind, class16), MAX_PACKET).Some?
    ensures var q := QueryOf(labels, kind, class16);
            U16(BuildReply(q, MAX_PACKET).value, 6)
            == if kind == 1 && class16 == 1 && (Under(labels, [BENCH, LOCAL]) || Under(labels, [BENCH, STHREAD, LOCAL]))
               then 1 else 0
  {
    var q := QueryOf(labels, kind, class16);
    QuestionOf(labels, kind, class16);
    ZoneIsLabels(labels);
    JoinLength(labels);
    hide Join, Wire, Under, InZone, Question, Plain, GoodLabels;
    assert |q| <= 271;
    ReplyHeader(q, MAX_PACKET);
  }

  lemma QuestionOf(labels: seq<seq<Byte>>, kind: nat, class16: nat)
    requires labels != [] && GoodLabels(labels) && Plain(labels) && |Join(labels)| <= 253
    requires kind < 0x1_0000 && class16 < 0x1_0000
    ensures var q := QueryOf(labels, kind, class16);
            && Question(q) == Some(Read(Join(labels), |q| - 4))
            && U16(q, |q| - 4) == kind && U16(q, |q| - 2) == class16
  {
    JoinLength(labels);
    var q, w := QueryOf(labels, kind, class16), Wire(labels);
    assert q[HEADER..HEADER + |w|] == w;
    DecodeExact(q, HEADER, labels, MAX_NAME);
    assert q[|q| - 4..|q|] == Net16(kind) + Net16(class16);
    HoldsParts(q, |q| - 4, Net16(kind), Net16(class16));
    Read16(q, |q| - 4, kind);
    Read16(q, |q| - 2, class16);
  }

  /** A name of more than 256 bytes is not asked for; any other one is, whatever it is made of. */
  lemma QueryLimit(buf: seq<Byte>, name: seq<Byte>)
    requires |buf| == MAX_PACKET
    ensures MakeQuery(buf, name).None? <==> |name| > 256
    ensures MakeQuery(buf, name).Some? ==> |MakeQuery(buf, name).value| == |name| + 18
  {
    hide SetDnsHead;
  }
}
