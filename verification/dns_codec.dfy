/** The name encoders, the decoder, the reply and the answer loop as they work: loops over byte buffers,
    each proved to leave what DnsNames and DnsExchange say. */
module DnsCodec {
  import opened Bytes
  import opened Queues
  import opened DnsNames
  import X = DnsExchange

  // ---------- st_dns_encode_qname ----------

  /** The bytes written so far, in front of what is still to come. */
  function Prepend(done: seq<Byte>, more: Option<seq<Byte>>): Option<seq<Byte>>
  {
    match more
    case None => None
    case Some(m) => Some(done + m)
  }

  lemma EncodeOne(done: seq<Byte>, rest: seq<Byte>, n: nat, outMax: int)
    requires rest != []
    ensures var l := FirstDot(rest);
            Prepend(done, EncodeRest(rest, n, outMax))
            == if l == 0 || l > 63 || n + 1 + l + 1 > outMax then None
               else Prepend(done + ([l] + rest[..l]), EncodeRest(Behind(rest), n + 1 + l, outMax))
  {
    hide FirstDot, Behind;
    var l := FirstDot(rest);
    if 0 < l <= 63 && n + 1 + l + 1 <= outMax && EncodeRest(Behind(rest), n + 1 + l, outMax).Some? {
      var m := EncodeRest(Behind(rest), n + 1 + l, outMax).value;
      assert done + ([l] + rest[..l] + m) == done + ([l] + rest[..l]) + m;
    }
  }

  /** memcpy into a buffer. */
  method Copy(to: array<Byte>, p: nat, bytes: seq<Byte>)
    requires p + |bytes| <= to.Length
    modifies to
    ensures to[..] == old(to[..p]) + bytes + old(to[p + |bytes|..])
  {
    var i := 0;
    while i < |bytes|
      invariant i <= |bytes|
      invariant to[..] == old(to[..p]) + bytes[..i] + old(to[p + i..])
    {
      to[p + i] := bytes[i];
      assert bytes[..i + 1] == bytes[..i] + [bytes[i]];
      i := i + 1;
    }
    assert bytes[..i] == bytes;
  }

  /** buf, with its first bytes replaced by these. */
  ghost predicate StartsAs(now: seq<Byte>, done: seq<Byte>, was: seq<Byte>)
  {
    |done| <= |was| && now == done + was[|done|..]
  }

  /** One label behind its length. */
  method PutLabel(out: array<Byte>, n: nat, l: seq<Byte>, ghost done: seq<Byte>, ghost was: seq<Byte>)
    requires n == |done| && n + 1 + |l| <= out.Length && |l| < 256 && StartsAs(out[..], done, was)
    modifies out
    ensures StartsAs(out[..], done + ([|l|] + l), was)
  {
    out[n] := |l|;
    assert out[..] == done + [|l|] + was[n + 1..];
    Copy(out, n + 1, l);
    assert out[..] == done + [|l|] + l + was[n + 1 + |l|..];
  }

  method PutZero(out: array<Byte>, n: nat, ghost done: seq<Byte>, ghost was: seq<Byte>)
    requires n == |done| < out.Length && StartsAs(out[..], done, was)
    modifies out
    ensures StartsAs(out[..], done + [0], was)
  {
    out[n] := 0;
  }

  ghost predicate Encoded(w: Option<seq<Byte>>, n: int, now: seq<Byte>, was: seq<Byte>)
  {
    match w
    case None => n == -1
    case Some(bytes) => n == |bytes| && StartsAs(now, bytes, was)
  }

  /** st_dns_encode_qname: the length written, or -1; the buffer starts with the encoded name. */
  method EncodeQname(name: seq<Byte>, out: array<Byte>, outMax: int) returns (n: int)
    requires outMax <= out.Length
    modifies out
    ensures Encoded(DnsNames.EncodeQname(name, outMax), n, out[..], old(out[..]))
  {
    hide *;
    EncodeStarts(name, outMax, out[..]);
    if outMax < 2 {
      return -1;
    }
    n := 0;
    var p := 0;
    ghost var was, done := out[..], [];
    while p < |name|
      invariant p <= |name| && 0 <= n < outMax && n == |done|
      invariant StartsAs(out[..], done, was)
      invariant Prepend(done, EncodeRest(name[p..], n, outMax)) == DnsNames.EncodeQname(name, outMax)
    {
      var l := FirstDot(name[p..]);
      EncodeOne(done, name[p..], n, outMax);
      if l == 0 || l > 63 || n + 1 + l + 1 > outMax {
        NotEncoded(out[..], was);
        return -1;
      }
      PutLabel(out, n, name[p..][..l], done, was);
      done := done + ([l] + name[p..][..l]);
      n := n + 1 + l;
      BehindIs(name, p);
      p := if l == |name| - p then |name| else p + l + 1;
    }
    LastZero(name, done, n, outMax);
    PutZero(out, n, done, was);
    n := n + 1;
    IsEncoded(done + [0], out[..], was);
  }

  lemma EncodeStarts(name: seq<Byte>, outMax: int, was: seq<Byte>)
    ensures outMax < 2 ==> Encoded(DnsNames.EncodeQname(name, outMax), -1, was, was)
    ensures StartsAs(was, [], was)
    ensures outMax >= 2 ==> Prepend([], EncodeRest(name[0..], 0, outMax)) == DnsNames.EncodeQname(name, outMax)
  {
    assert name[0..] == name;
    NothingYet(EncodeRest(name, 0, outMax));
  }

  lemma NotEncoded(now: seq<Byte>, was: seq<Byte>)
    ensures Encoded(None, -1, now, was)
  {
  }

  lemma IsEncoded(bytes: seq<Byte>, now: seq<Byte>, was: seq<Byte>)
    requires StartsAs(now, bytes, was)
    ensures Encoded(Some(bytes), |bytes|, now, was)
  {
  }

  lemma NothingYet(more: Option<seq<Byte>>)
    ensures Prepend([], more) == more
  {
    if more.Some? {
      assert [] + more.value == more.value;
    }
  }

  lemma BehindIs(name: seq<Byte>, p: nat)
    requires p < |name|
    ensures var l := FirstDot(name[p..]);
            l <= |name| - p && Behind(name[p..]) == name[if l == |name| - p then |name| else p + l + 1..]
  {
    hide FirstDot;
  }

  lemma LastZero(name: seq<Byte>, done: seq<Byte>, n: nat, outMax: int)
    ensures name[|name|..] == [] && Prepend(done, EncodeRest([], n, outMax))
            == if n + 1 > outMax then None else Some(done + [0])
  {
  }

  // ---------- ch_name ----------

  /** The bytes of a name on the wire, with empty labels too, but for the first length. */
  function Open(s: seq<Byte>): (r: seq<Byte>)
    ensures |r| == |s| + 1
  {
    X.BackwardLength(s);
    Wire(Split(s))[1..]
  }

  /** The labels behind the first dot on the wire. */
  function Others(s: seq<Byte>): seq<Byte>
  {
    var n := FirstDot(s);
    if n == |s| then [0] else Wire(Split(s[n + 1..]))
  }

  lemma OpenIs(s: seq<Byte>)
    ensures var n := FirstDot(s);
            && Wire(Split(s)) == [n % 256] + Open(s)
            && Open(s) == s[..n] + Others(s)
  {
    var n := FirstDot(s);
    hide FirstDot, Wire;
    if n == |s| {
      SplitAlone(s);
      assert s[..n] == s;
      Behind1(n % 256, s, [0]);
    } else {
      SplitMore(s);
      hide Split;
      WireCons(s[..n], Split(s[n + 1..]));
      Behind1(n % 256, s[..n], Wire(Split(s[n + 1..])));
    }
  }

  lemma SplitAlone(s: seq<Byte>)
    requires FirstDot(s) == |s|
    ensures Wire(Split(s)) == [|s| % 256] + s + [0]
  {
    hide FirstDot;
    WireCons(s, []);
    assert [s] + [] == [s];
  }

  lemma Behind1(x: Byte, a: seq<Byte>, b: seq<Byte>)
    ensures ([x] + a + b)[1..] == a + b && [x] + a + b == [x] + (a + b)
  {
  }

  lemma OpenDot(s: seq<Byte>)
    ensures FirstDot([DOT] + s) == 0 && Open([DOT] + s) == [FirstDot(s) % 256] + Open(s)
  {
    var t: seq<Byte> := [DOT] + s;
    FirstDotIs(t, 0);
    OpenIs(t);
    OpenIs(s);
    hide FirstDot, Open, Split, Wire;
    assert t[1..] == s && t[..0] == [];
    assert [] + Wire(Split(s)) == Wire(Split(s));
  }

  /** A character in front makes the first label longer. */
  lemma OpenChar(c: Byte, s: seq<Byte>)
    requires c != DOT
    ensures FirstDot([c] + s) == FirstDot(s) + 1 && Open([c] + s) == [c] + Open(s)
  {
    var t, n := [c] + s, FirstDot(s);
    FirstDotIs(t, n + 1);
    OpenIs(t);
    OpenIs(s);
    SameOthers(c, s);
    hide FirstDot, Open, Others;
    Regroup(c, s, n, Others(s));
  }

  lemma SameOthers(c: Byte, s: seq<Byte>)
    requires FirstDot([c] + s) == FirstDot(s) + 1
    ensures Others([c] + s) == Others(s)
  {
    hide FirstDot, Split, Wire;
    if FirstDot(s) < |s| {
      assert ([c] + s)[FirstDot(s) + 2..] == s[FirstDot(s) + 1..];
    }
  }

  lemma Regroup(c: Byte, s: seq<Byte>, n: nat, more: seq<Byte>)
    requires n <= |s|
    ensures ([c] + s)[..n + 1] + more == [c] + (s[..n] + more)
  {
  }

  /** ch_name writes the name at base from its end to its start, each dot replaced by the length of the
      label behind it; the result is the length up to the first zero, and one. */
  method ChName(fname: seq<Byte>, to: array<Byte>, base: nat) returns (r: nat)
    requires base + |fname| + 2 <= to.Length
    modifies to
    ensures to[..] == old(to[..base]) + Backward(fname).0 + old(to[base + |fname| + 2..]) && r == Backward(fname).1
  {
    hide *;
    ghost var pre, post := to[..base], to[base + |fname| + 2..];
    var j := 0;
    var i := |fname|;
    NameStarts(fname);
    to[base + i + 1] := 0;
    while i > 0
      invariant 0 <= i <= |fname| && j == FirstDot(fname[i..])
      invariant to[..base] == pre && to[base + |fname| + 2..] == post
      invariant to[base + i + 1..base + |fname| + 2] == Open(fname[i..])
    {
      ghost var tail := to[base + i + 1..base + |fname| + 2];
      i := i - 1;
      NameStep(fname, i);
      if fname[i] == 46 {
        to[base + i + 1] := j % 256;
        j := 0;
      } else {
        to[base + i + 1] := fname[i];
        j := j + 1;
      }
      assert to[base + i + 1..base + |fname| + 2] == [to[base + i + 1]] + tail;
    }
    to[base] := j % 256;
    NameEnds(fname, to[base..base + |fname| + 2], to[base + 1..base + |fname| + 2], j);
    assert to[..] == pre + to[base..base + |fname| + 2] + post;
    r := StrLen(to[base..base + |fname| + 2]) + 1;
  }

  lemma NameStarts(fname: seq<Byte>)
    ensures FirstDot(fname[|fname|..]) == 0 && Open(fname[|fname|..]) == [0]
  {
    assert fname[|fname|..] == [];
    EmptySplit();
  }

  lemma NameStep(fname: seq<Byte>, i: nat)
    requires i < |fname|
    ensures if fname[i] == 46
            then FirstDot(fname[i..]) == 0
                 && Open(fname[i..]) == [FirstDot(fname[i + 1..]) % 256] + Open(fname[i + 1..])
            else
              && FirstDot(fname[i..]) == FirstDot(fname[i + 1..]) + 1
              && Open(fname[i..]) == [fname[i]] + Open(fname[i + 1..])
  {
    var s := fname[i + 1..];
    assert fname[i..] == [fname[i]] + s;
    hide FirstDot, Open;
    if fname[i] == 46 {
      OpenDot(s);
    } else {
      OpenChar(fname[i], s);
    }
  }

  lemma NameEnds(fname: seq<Byte>, written: seq<Byte>, behind: seq<Byte>, j: nat)
    requires j == FirstDot(fname[0..]) && |written| == |fname| + 2 && written[0] == j % 256 && written[1..] == behind
    requires behind == Open(fname[0..])
    ensures written == Backward(fname).0 && Backward(fname).1 == StrLen(written) + 1
  {
    assert fname[0..] == fname;
    OpenIs(fname);
    hide FirstDot, Split, Wire, StrLen, Open;
    assert written == [written[0]] + written[1..];
  }

  // ---------- st_dns_decode_qname ----------

  /** A C string in a buffer. */
  ghost predicate Holds(buf: seq<Byte>, s: seq<Byte>)
  {
    |s| < |buf| && buf[..|s|] == s && buf[|s|] == 0
  }

  ghost predicate DecodedAs(r: Option<Read>, off: int, buf: seq<Byte>)
  {
    match r
    case None => off == -1
    case Some(q) => off == q.end && Holds(buf, q.name)
  }

  /** st_dns_decode_qname: the place behind the name, which is left in the buffer, or -1. */
  method DecodeQname(pkt: seq<Byte>, from: nat, name: array<Byte>, nameMax: int) returns (off: int)
    requires nameMax <= name.Length
    modifies name
    ensures DecodedAs(DnsNames.DecodeQname(pkt, from, nameMax), off, name[..])
  {
    hide *;
    if nameMax < 2 {
      TooShort(pkt, from, nameMax, name[..]);
      return -1;
    }
    name[0] := 0;
    off := from;
    var npos, hops := 0, 0;
    ghost var base: seq<Byte> := [];
    DecodeStarts(pkt, from, nameMax);
    while off < |pkt| && hops < 128
      invariant 0 <= off && 0 <= npos < nameMax && npos == |base| && hops >= 0
      invariant name[..npos] == base
      invariant DecodeRest(pkt, off, base, hops, nameMax) == DnsNames.DecodeQname(pkt, from, nameMax)
      decreases |pkt| - off
    {
      var lab := pkt[off];
      DecodeLoop(pkt, off, base, hops, nameMax);
      if lab == 0 {
        off := off + 1;
        if npos == 0 {
          name[0], name[1] := 46, 0;
          assert name[..1] == [46];
          IsDecoded(Read([46], off), name[..]);
        } else {
          name[npos] := 0;
          assert name[..npos] == base;
          IsDecoded(Read(base, off), name[..]);
        }
        return off;
      }
      if lab >= 192 || lab > 63 || off + 1 + lab > |pkt| {
        NotDecoded(name[..]);
        return -1;
      }
      off := off + 1;
      if npos > 0 {
        if npos + 1 >= nameMax {
          NotDecoded(name[..]);
          return -1;
        }
        name[npos] := 46;
        npos := npos + 1;
        base := base + [46];
        assert name[..npos] == base;
      }
      if npos + lab >= nameMax {
        NotDecoded(name[..]);
        return -1;
      }
      Copy(name, npos, pkt[off..off + lab]);
      assert name[..npos + lab] == base + pkt[off..off + lab];
      base := base + pkt[off..off + lab];
      npos := npos + lab;
      off := off + lab;
      hops := hops + 1;
    }
    DecodeStops(pkt, off, base, hops, nameMax);
    NotDecoded(name[..]);
    off := -1;
  }

  lemma TooShort(pkt: seq<Byte>, from: nat, nameMax: int, buf: seq<Byte>)
    requires nameMax < 2
    ensures DecodedAs(DnsNames.DecodeQname(pkt, from, nameMax), -1, buf)
  {
  }

  lemma DecodeStarts(pkt: seq<Byte>, from: nat, nameMax: int)
    requires nameMax >= 2
    ensures DecodeRest(pkt, from, [], 0, nameMax) == DnsNames.DecodeQname(pkt, from, nameMax)
  {
  }

  /** One turn of the decoder. */
  lemma DecodeLoop(pkt: seq<Byte>, off: nat, base: seq<Byte>, hops: nat, nameMax: int)
    requires off < |pkt| && hops < 128
    ensures var lab := pkt[off];
            DecodeRest(pkt, off, base, hops, nameMax)
            == if lab == 0 then Some(Read(if base == [] then [46] else base, off + 1))
               else if lab > 63 || off + 1 + lab > |pkt| then None
               else if base != [] && |base| + 1 >= nameMax then None
               else
                 var more := pkt[off + 1..off + 1 + lab];
                 if base == [] then if lab >= nameMax then None
                                    else DecodeRest(pkt, off + 1 + lab, base + more, hops + 1, nameMax)
                 else if |base| + 1 + lab >= nameMax then None
                 else DecodeRest(pkt, off + 1 + lab, base + [46] + more, hops + 1, nameMax)
  {
    assert [] + pkt[off + 1..] == pkt[off + 1..];
  }

  lemma DecodeStops(pkt: seq<Byte>, off: nat, base: seq<Byte>, hops: nat, nameMax: int)
    requires off >= |pkt| || hops >= 128
    ensures DecodeRest(pkt, off, base, hops, nameMax) == None
  {
  }

  lemma NotDecoded(buf: seq<Byte>)
    ensures DecodedAs(None, -1, buf)
  {
  }

  lemma IsDecoded(q: Read, buf: seq<Byte>)
    requires |q.name| < |buf| && buf[..|q.name|] == q.name && buf[|q.name|] == 0
    ensures DecodedAs(Some(q), q.end, buf)
  {
  }

  // ---------- set_dns_head and make_dns_query_format ----------

  class Dns {
    const sendBuf: array<Byte>

    constructor ()
      ensures fresh(sendBuf) && sendBuf.Length == X.MAX_PACKET
    {
      sendBuf := new Byte[X.MAX_PACKET](i => 0);
    }

    /** Writes the query into the send buffer and gives its length, or -1 for a name that is too long. */
    method MakeDnsQueryFormat(name: seq<Byte>) returns (len: int)
      requires sendBuf.Length == X.MAX_PACKET
      modifies sendBuf
      ensures match X.MakeQuery(old(sendBuf[..]), name)
              case None => len == -1
              case Some(q) => len == |q| <= sendBuf.Length && sendBuf[..len] == q
    {
      if |name| > 256 {
        return -1;
      }
      ghost var was := sendBuf[..];
      BackwardBounds(name);
      hide Backward;
      X.BackwardLength(name);
      Copy(sendBuf, 0, X.QUERY_HEAD);
      assert sendBuf[..] == X.Written(was, 0, X.QUERY_HEAD);
      ghost var headed := sendBuf[..];
      var n := ChName(name, sendBuf, 12);
      assert sendBuf[..] == X.Written(headed, 12, Backward(name).0);
      ghost var named := sendBuf[..];
      Copy(sendBuf, 12 + n, [0, 1, 0, 1]);
      assert sendBuf[..] == X.Written(named, 12 + n, [0, 1, 0, 1]);
      len := 12 + 4 + |name| + 2;
    }
  }

  lemma BackwardBounds(name: seq<Byte>)
    ensures |Backward(name).0| == |name| + 2 && 1 <= Backward(name).1 <= |name| + 2
  {
    X.BackwardLength(name);
    hide Wire, Split;
    BackwardStops(name);
  }

  /** The zero behind the last label ends the string at the latest. */
  lemma BackwardStops(name: seq<Byte>)
    ensures |Wire(Split(name))| >= 1 && StrLen(Wire(Split(name))) < |Wire(Split(name))|
  {
    WireEndsInZero(Split(name));
    hide Wire, Split;
    assert StrLen(Wire(Split(name))) <= |Wire(Split(name))| - 1;
  }

  lemma {:induction false} WireEndsInZero(labels: seq<seq<Byte>>)
    ensures |Wire(labels)| >= 1 && Wire(labels)[|Wire(labels)| - 1] == 0
  {
    if labels != [] {
      WireEndsInZero(labels[1..]);
    }
  }

  // ---------- st_dns_build_reply ----------

  ghost predicate Replied(r: Option<seq<Byte>>, n: int, out: seq<Byte>)
  {
    match r
    case None => n == -1
    case Some(bytes) => n == |bytes| && bytes <= out
  }

  /** The name in the buffer is in the zone when the name decoded is. */
  lemma HeldName(buf: seq<Byte>, name: seq<Byte>)
    requires Holds(buf, name)
    ensures InZone(buf) == InZone(name)
  {
    var n := StrLen(name);
    assert forall i :: 0 <= i < |name| ==> buf[i] == buf[..|name|][i];
    StrLenIs(buf, n);
    assert buf[..n] == name[..n];
  }

  /** The header of the reply, over a copy of the query. */
  method WriteHead(query: seq<Byte>, out: array<Byte>)
    requires 12 <= |query| <= out.Length && query <= out[..]
    modifies out
    ensures X.ReplyHead(query, 0) + query[12..] <= out[..]
  {
    ghost var was := out[..];
    assert out[0] == query[0] && out[1] == query[1];
    out[2], out[3] := X.SetBit(X.SetBit(query[2], 128), 4), X.SetBit(query[3], 128) - X.SetBit(query[3], 128) % 16;
    out[6], out[7], out[8], out[9], out[10], out[11] := 0, 0, 0, 0, 0, 0;
    out[4], out[5] := 0, 1;
    hide X.SetBit, X.ReplyHead;
    HeadBytes(query, out[..]);
    assert out[12..|query|] == was[12..|query|] == query[12..];
    HeadThenRest(out[..], X.ReplyHead(query, 0), query[12..]);
  }

  lemma HeadBytes(query: seq<Byte>, now: seq<Byte>)
    requires 12 <= |query| && 12 <= |now| && now[0] == query[0] && now[1] == query[1]
    requires now[2] == X.SetBit(X.SetBit(query[2], 128), 4)
    requires now[3] == X.SetBit(query[3], 128) - X.SetBit(query[3], 128) % 16
    requires now[4] == 0 && now[5] == 1 && forall i :: 6 <= i < 12 ==> now[i] == 0
    ensures now[..12] == X.ReplyHead(query, 0)
  {
    hide X.SetBit;
  }

  lemma HeadThenRest(all: seq<Byte>, a: seq<Byte>, b: seq<Byte>)
    requires |a| + |b| <= |all| && all[..|a|] == a && all[|a|..|a| + |b|] == b
    ensures a + b <= all
  {
    assert all[..|a| + |b|] == all[..|a|] + all[|a|..|a| + |b|];
  }

  lemma HeadOne(query: seq<Byte>, was: seq<Byte>, now: seq<Byte>)
    requires 12 <= |query| && X.ReplyHead(query, 0) + query[12..] <= was && |now| == |was|
    requires now[7] == 1 && forall i :: 0 <= i < |query| && i != 7 ==> now[i] == was[i]
    ensures now[..12] == X.ReplyHead(query, 1) && now[12..|query|] == query[12..]
  {
    hide X.SetBit;
    var head := X.ReplyHead(query, 0) + query[12..];
    assert was[..|query|] == head;
    assert forall i :: 0 <= i < |query| ==> was[i] == was[..|query|][i];
    forall i | 12 <= i < |query|
      ensures now[i] == query[i]
    {
      assert head[i] == query[12..][i - 12];
    }
  }

  /** The answer, behind the question. */
  method WriteAnswer(query: seq<Byte>, out: array<Byte>)
    requires 12 <= |query| && |query| + 16 <= out.Length && X.ReplyHead(query, 0) + query[12..] <= out[..]
    modifies out
    ensures X.ReplyHead(query, 1) + query[12..] + X.ANSWER <= out[..]
  {
    ghost var was := out[..];
    var n := |query|;
    Copy(out, n, X.ANSWER);
    out[7] := 1;
    hide X.ReplyHead;
    HeadOne(query, was, out[..]);
    HeadThenRest(out[..], X.ReplyHead(query, 1), query[12..]);
    assert out[n..n + 16] == X.ANSWER;
    HeadThenRest(out[..], X.ReplyHead(query, 1) + query[12..], X.ANSWER);
  }

  /** st_dns_build_reply: the length of the reply at the start of the buffer, or -1. */
  method BuildReply(query: seq<Byte>, out: array<Byte>, outMax: int) returns (rlen: int)
    requires outMax <= out.Length
    modifies out
    ensures Replied(X.BuildReply(query, outMax), rlen, out[..])
  {
    hide DnsNames.DecodeQname, InZone, X.ReplyHead;
    if |query| < 12 || |query| > 512 || outMax < |query| || X.U16(query, 4) < 1 {
      return -1;
    }
    var qname := new Byte[256](i => 0);
    var qoff := DecodeQname(query, 12, qname, 256);
    if qoff < 0 || qoff + 4 > |query| {
      return -1;
    }
    ghost var q := DnsNames.DecodeQname(query, 12, 256).value;
    HeldName(qname[..], q.name);
    var wantA := X.U16(query, qoff) == X.TYPE_A && X.U16(query, qoff + 2) == X.CLASS_IN && InZone(qname[..]);
    Copy(out, 0, query);
    assert query <= out[..];
    WriteHead(query, out);
    rlen := |query|;
    if !wantA {
      return rlen;
    }
    if rlen + 16 > outMax {
      return -1;
    }
    WriteAnswer(query, out);
    rlen := rlen + 16;
  }

  // ---------- the answer loop of dns_lookup ----------

  /** The loop over the answers, for a receive buffer that holds them all. */
  method DnsLookup(mem: seq<Byte>, queryLen: nat) returns (ret: int, vc: seq<seq<Byte>>, ttl: Option<nat>)
    requires |mem| >= X.HEADER && X.DnsLookup(mem, queryLen).Answers?
    ensures X.DnsLookup(mem, queryLen) == X.Answers(ret, vc, ttl)
  {
    hide X.U16, X.U32;
    vc, ttl := [], None;
    var num, off, i := X.U16(mem, 6), 0, 0;
    while i < num
      invariant 0 <= i <= num && 0 <= off
      invariant X.AnswerLoop(mem, queryLen + off, num - i, vc, ttl) == X.DnsLookup(mem, queryLen)
    {
      var p := queryLen + off;
      var kind := X.U16(mem, p + 2);
      ttl := Some(X.U32(mem, p + 6));
      if kind == X.TYPE_A {
        vc := vc + [mem[p + 12..p + 16]];
        off := off + 16;
      } else if kind == X.TYPE_CNAME {
        off := off + 12 + X.U16(mem, p + 10);
      } else {
        return 0, vc, ttl;
      }
      i := i + 1;
    }
    return if vc == [] then -1 else 0, vc, ttl;
  }
}
