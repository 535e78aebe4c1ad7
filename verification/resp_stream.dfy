/** The incremental use of the RESP decoder, and the command encoder of app/st_redisclient/resp.cc. */
module RespStream {
  import opened Queues
  import opened Bytes
  import opened RespModel

  const MIB: int := 1024 * 1024

  /** RespParser: the bytes kept and the size of the buffer. */
  datatype Parser = Parser(buf: seq<Byte>, cap: nat)

  /** The doubling in parser_append: the size that holds need bytes, or -1. */
  function Grow(need: int, cap: int): (c: int)
    requires cap > 0
    decreases need - cap
  {
    if need <= cap then cap
    else if cap > MIB then -1
    else Grow(need, cap * 2)
  }

  function Append(p: Parser, data: seq<Byte>): Option<Parser>
  {
    if data == [] then Some(p)
    else
      var cap := Grow(|p.buf| + |data| + 1, if p.cap == 0 then 256 else p.cap);
      if cap < 0 then None else Some(Parser(p.buf + data, cap))
  }

  /** What resp_parse returns. */
  datatype Answer = Wait | Fail | Got(v: Value)

  function Parse(p: Parser, data: seq<Byte>): (r: (Parser, Answer))
  {
    match Append(p, data)
    case None => (p, Fail)
    case Some(p1) =>
      if p1.buf == [] then (p1, Wait)
      else
        match ParseOne(p1.buf, 0)
        case More => (p1, Wait)
        case Bad => (p1, Fail)
        case Done(v, used) => (p1.(buf := p1.buf[used..]), Got(v))
  }

  // ---------- the buffer ----------

  /** The sizes a buffer takes: none yet, or 256 bytes doubled up to 2 MiB. */
  ghost predicate IsCap(c: int)
  {
    c == 0 || c == 0x100 || c == 0x200 || c == 0x400 || c == 0x800 || c == 0x1000 || c == 0x2000 || c == 0x4000
    || c == 0x8000 || c == 0x1_0000 || c == 0x2_0000 || c == 0x4_0000 || c == 0x8_0000 || c == 0x10_0000
    || c == 0x20_0000
  }

  lemma {:induction false} GrowExact(need: int, cap: int)
    requires cap > 0 && IsCap(cap)
    ensures var c := Grow(need, cap);
            if need <= 2 * MIB then need <= c && IsCap(c) && cap <= c else c == -1
    decreases need - cap
  {
    if need > cap && cap <= MIB {
      GrowExact(need, cap * 2);
    }
  }

  ghost predicate ParserOk(p: Parser)
  {
    IsCap(p.cap) && (if p.cap == 0 then p.buf == [] else |p.buf| + 1 <= p.cap)
  }

  /** Bytes are taken exactly when they and a terminator fit into 2 MiB; otherwise nothing changes. */
  lemma AppendExact(p: Parser, data: seq<Byte>)
    requires ParserOk(p)
    ensures Append(p, data).Some? <==> data == [] || |p.buf| + |data| + 1 <= 2 * MIB
    ensures Append(p, data).Some? ==> Append(p, data).value.buf == p.buf + data && ParserOk(Append(p, data).value)
  {
    GrowExact(|p.buf| + |data| + 1, if p.cap == 0 then 256 else p.cap);
  }

  /** No call loses a byte: what the buffer has afterwards is what was there and what came, but for the bytes of
      the value that was given. A call fails exactly when there is no room, and then takes nothing, or when the
      decoder refuses what is there. */
  lemma NoByteIsLost(p: Parser, data: seq<Byte>)
    requires ParserOk(p)
    ensures var (p', a) := Parse(p, data);
            var all := p.buf + data;
            && ParserOk(p')
            && (a.Got? ==> all != [] && exists used: nat :: used <= |all| && p'.buf == all[used..]
                                                         && ParseOne(all, 0) == Done(a.v, used))
            && (a == Wait ==> p'.buf == all && (all == [] || ParseOne(all, 0) == More))
            && (a == Fail ==> if data != [] && |all| + 1 > 2 * MIB then p' == p
                              else p'.buf == all != [] && ParseOne(all, 0) == Bad)
  {
    hide ParseOne, Grow;
    AppendExact(p, data);
    if data == [] {
      assert p.buf + data == p.buf;
    }
  }

  // ---------- streams ----------

  /** The parser has given k of the values of a stream, holds part of what follows, and `rest` is to come. */
  ghost predicate InStream(p: Parser, vs: seq<Value>, k: nat, rest: seq<Byte>)
  {
    && ParserOk(p) && k <= |vs| && p.buf + rest == EncFrom(vs, k)
    && forall i :: 0 <= i < |vs| ==> WellFormed(vs[i], 0)
  }

  /** One call with the next bytes of the stream, or none: the next value, as soon as all its bytes are
      there, and then the bytes behind it stay; else 0 and everything stays. */
  lemma CallInStream(p: Parser, vs: seq<Value>, k: nat, rest: seq<Byte>, data: seq<Byte>)
    requires InStream(p, vs, k, rest) && data <= rest
    requires data == [] || |p.buf| + |data| + 1 <= 2 * MIB
    ensures var (p', a) := Parse(p, data);
            if k < |vs| && |p.buf| + |data| >= |Enc(vs[k])|
              then a == Got(vs[k]) && p'.buf == (p.buf + data)[|Enc(vs[k])|..]
                   && InStream(p', vs, k + 1, rest[|data|..])
              else a == Wait && p'.buf == p.buf + data && InStream(p', vs, k, rest[|data|..])
  {
    hide ParseOne, EncFrom, Enc, WellFormed;
    AppendExact(p, data);
    var p1 := Append(p, data).value;
    var left := rest[|data|..];
    assert rest == data + left;
    assert p1.buf + left == EncFrom(vs, k);
    BufferDecodes(p1.buf, left, vs, k);
  }

  /** What the decoder makes of the bytes at hand when `left` is still to come. */
  lemma BufferDecodes(buf: seq<Byte>, left: seq<Byte>, vs: seq<Value>, k: nat)
    requires k <= |vs| && buf + left == EncFrom(vs, k) && forall i :: 0 <= i < |vs| ==> WellFormed(vs[i], 0)
    ensures if k < |vs| then
              && DecodedAt(ParseOne(buf, 0), |buf|, |Enc(vs[k])|, vs[k])
              && (|buf| >= |Enc(vs[k])| ==> buf[|Enc(vs[k])|..] + left == EncFrom(vs, k + 1))
            else buf == []
  {
    if k < |vs| {
      var tail := EncFrom(vs, k + 1);
      var n := |buf|;
      assert buf == (Enc(vs[k]) + tail)[..n];
      Decodes(vs[k], 0, tail, n);
      hide Enc, ParseOne;
      if n >= |Enc(vs[k])| {
        assert buf[|Enc(vs[k])|..] + left == (buf + left)[|Enc(vs[k])|..] == tail;
      }
    } else {
      assert |buf + left| == 0;
    }
  }

  /** The answers to a sequence of calls, and the parser after them. */
  function Calls(p: Parser, chunks: seq<seq<Byte>>): (r: (Parser, seq<Answer>))
    ensures |r.1| == |chunks|
    decreases |chunks|
  {
    if chunks == [] then (p, [])
    else
      var (p1, a) := Parse(p, chunks[0]);
      var (p2, more) := Calls(p1, chunks[1..]);
      (p2, [a] + more)
  }

  /** No call has to hold more than 2 MiB. */
  ghost predicate Fits(p: Parser, chunks: seq<seq<Byte>>)
    decreases |chunks|
  {
    chunks == []
    || ((chunks[0] == [] || |p.buf| + |chunks[0]| + 1 <= 2 * MIB) && Fits(Parse(p, chunks[0]).0, chunks[1..]))
  }

  function Concat(chunks: seq<seq<Byte>>): seq<Byte>
  {
    if chunks == [] then [] else chunks[0] + Concat(chunks[1..])
  }

  /** The values among the answers. */
  function Given(answers: seq<Answer>): seq<Value>
  {
    if answers == [] then []
    else (if answers[0].Got? then [answers[0].v] else []) + Given(answers[1..])
  }

  lemma CutRest(c: seq<Byte>, d: seq<Byte>, rest: seq<Byte>)
    requires c + d <= rest
    ensures c <= rest && d <= rest[|c|..] && rest[|c + d|..] == rest[|c|..][|d|..]
  {
    assert c == (c + d)[..|c|] == rest[..|c|];
    assert d == (c + d)[|c|..] == rest[..|c + d|][|c|..] == rest[|c|..][..|d|];
  }

  /** Whatever the cuts of the stream and however many calls without bytes come between: no call fails,
      the values given are the first values of the stream in order, and the parser holds exactly the
      bytes that came behind them. */
  lemma {:induction false} CutsDoNotMatter(p: Parser, vs: seq<Value>, k: nat, rest: seq<Byte>, chunks: seq<seq<Byte>>)
    requires InStream(p, vs, k, rest) && Concat(chunks) <= rest && Fits(p, chunks)
    ensures var (p', answers) := Calls(p, chunks);
            && Fail !in answers
            && k + |Given(answers)| <= |vs| && Given(answers) == vs[k..k + |Given(answers)|]
            && InStream(p', vs, k + |Given(answers)|, rest[|Concat(chunks)|..])
    decreases |chunks|
  {
    hide Enc, EncFrom, WellFormed, InStream, Parse;
    if chunks != [] {
      var c := chunks[0];
      var left := rest[|c|..];
      CutRest(c, Concat(chunks[1..]), rest);
      CallInStream(p, vs, k, rest, c);
      var (p1, a) := Parse(p, c);
      var k1 := if a.Got? then k + 1 else k;
      KInRange(p1, vs, k1, left);
      CutsDoNotMatter(p1, vs, k1, left, chunks[1..]);
      var answers := Calls(p, chunks).1;
      assert answers[1..] == Calls(p1, chunks[1..]).1;
      if a.Got? {
        assert vs[k..k + |Given(answers)|] == [vs[k]] + vs[k1..k + |Given(answers)|];
      }
    } else {
      KInRange(p, vs, k, rest);
      assert rest[0..] == rest;
    }
  }

  lemma KInRange(p: Parser, vs: seq<Value>, k: nat, rest: seq<Byte>)
    requires InStream(p, vs, k, rest)
    ensures k <= |vs|
  {
  }

  /** Once all bytes of the stream have come, each further call without bytes gives the next value, and
      the parser ends empty. */
  lemma {:induction false} DrainsCompletely(p: Parser, vs: seq<Value>, k: nat, chunks: seq<seq<Byte>>)
    requires InStream(p, vs, k, []) && |chunks| == |vs| - k && forall i :: 0 <= i < |chunks| ==> chunks[i] == []
    ensures Given(Calls(p, chunks).1) == vs[k..] && Calls(p, chunks).0.buf == []
    decreases |chunks|
  {
    hide WellFormed, Enc, Parse;
    assert p.buf + [] == p.buf;
    if chunks != [] {
      NextIsThere(p, vs, k);
      CallInStream(p, vs, k, [], chunks[0]);
      DrainsCompletely(Parse(p, chunks[0]).0, vs, k + 1, chunks[1..]);
      assert Calls(p, chunks).1[1..] == Calls(Parse(p, chunks[0]).0, chunks[1..]).1;
      assert vs[k..] == [vs[k]] + vs[k + 1..];
    }
  }

  lemma NextIsThere(p: Parser, vs: seq<Value>, k: nat)
    requires InStream(p, vs, k, []) && k < |vs|
    ensures |p.buf| >= |Enc(vs[k])|
  {
    hide Enc, WellFormed;
    assert p.buf == p.buf + [] == Enc(vs[k]) + EncFrom(vs, k + 1);
  }

  // ---------- the command encoder ----------

  function Bulks(argv: seq<seq<Byte>>): (vs: seq<Value>)
    ensures |vs| == |argv| && forall i :: 0 <= i < |vs| ==> vs[i] == Bulk(argv[i])
  {
    if argv == [] then [] else [Bulk(argv[0])] + Bulks(argv[1..])
  }

  /** What resp_encode writes for the arguments. */
  function Command(argv: seq<seq<Byte>>): seq<Byte>
  {
    Enc(Array(Bulks(argv)))
  }

  /** Parsing an encoded command gives the arguments back, and leaves what follows it. */
  lemma CommandRoundTrip(argv: seq<seq<Byte>>, rest: seq<Byte>)
    requires 0 < |argv| <= MAX_ARRAY && forall i :: 0 <= i < |argv| ==> |argv[i]| <= MAX_BULK
    ensures ParseOne(Command(argv) + rest, 0) == Done(Array(Bulks(argv)), |Command(argv)|)
  {
    var v := Array(Bulks(argv));
    var s := Command(argv) + rest;
    Decodes(v, 0, rest, |s|);
    assert s[..|s|] == s;
  }
}
