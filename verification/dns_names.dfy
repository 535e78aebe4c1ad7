/** Domain names on the wire (section 3.1 of RFC 1035): the forward and the backward encoder, the decoder
    and the zone test of app/st_dns/dns_proto.h and app/st_dns/dns.cpp. */
module DnsNames {
  import opened Bytes
  import opened Queues

  const DOT: Byte := 46

  // ---------- dotted names and their labels ----------

  /** Where the first dot is; the length when there is none. */
  function FirstDot(s: seq<Byte>): (n: nat)
    ensures n <= |s| && (n < |s| ==> s[n] == DOT) && forall i :: 0 <= i < n ==> s[i] != DOT
  {
    if s == [] || s[0] == DOT then 0 else FirstDot(s[1..]) + 1
  }

  /** Everything between the dots. */
  function Split(name: seq<Byte>): (labels: seq<seq<Byte>>)
    ensures labels != []
  {
    var n := FirstDot(name);
    if n == |name| then [name] else [name[..n]] + Split(name[n + 1..])
  }

  function Join(labels: seq<seq<Byte>>): seq<Byte>
  {
    if labels == [] then []
    else if |labels| == 1 then labels[0]
    else labels[0] + [DOT] + Join(labels[1..])
  }

  /** The labels of a name, with or without its final dot. */
  function Labels(name: seq<Byte>): seq<seq<Byte>>
    decreases |name|
  {
    if name == [] then [] else [name[..FirstDot(name)]] + Labels(Behind(name))
  }

  /** What follows the first dot. */
  function Behind(name: seq<Byte>): (rest: seq<Byte>)
    requires name != []
    ensures |rest| < |name|
  {
    var n := FirstDot(name);
    if n == |name| then [] else name[n + 1..]
  }

  /** Every label has 1 to 63 bytes. */
  predicate GoodLabels(labels: seq<seq<Byte>>)
  {
    labels == [] || (1 <= |labels[0]| <= 63 && GoodLabels(labels[1..]))
  }

  ghost predicate CString(s: seq<Byte>)
  {
    forall i :: 0 <= i < |s| ==> s[i] != 0
  }

  ghost predicate DotFree(s: seq<Byte>)
  {
    forall i :: 0 <= i < |s| ==> s[i] != DOT
  }

  /** The labels hold neither dots nor zeros. */
  ghost predicate Plain(labels: seq<seq<Byte>>)
  {
    labels == [] || (DotFree(labels[0]) && CString(labels[0]) && Plain(labels[1..]))
  }

  /** Each label behind its length, and a zero behind the last. */
  function Wire(labels: seq<seq<Byte>>): seq<Byte>
  {
    if labels == [] then [0] else [|labels[0]| % 256] + labels[0] + Wire(labels[1..])
  }

  // ---------- the forward encoder ----------

  /** What st_dns_encode_qname writes for the rest of a name from position n on. */
  function EncodeRest(rest: seq<Byte>, n: nat, outMax: int): Option<seq<Byte>>
    decreases |rest|
  {
    if rest == [] then if n + 1 > outMax then None else Some([0])
    else
      var l := FirstDot(rest);
      if l == 0 || l > 63 || n + 1 + l + 1 > outMax then None
      else
        match EncodeRest(Behind(rest), n + 1 + l, outMax)
        case None => None
        case Some(more) => Some([l] + rest[..l] + more)
  }

  /** st_dns_encode_qname. */
  function EncodeQname(name: seq<Byte>, outMax: int): Option<seq<Byte>>
  {
    if outMax < 2 then None else if name == [] then Some([0]) else EncodeRest(name, 0, outMax)
  }

  lemma GoodCons(l: seq<Byte>, labels: seq<seq<Byte>>)
    ensures GoodLabels([l] + labels) <==> 1 <= |l| <= 63 && GoodLabels(labels)
  {
    assert ([l] + labels)[1..] == labels;
  }

  lemma WireCons(l: seq<Byte>, labels: seq<seq<Byte>>)
    ensures Wire([l] + labels) == [|l| % 256] + l + Wire(labels)
  {
    assert ([l] + labels)[1..] == labels;
  }

  lemma WireEnds(labels: seq<seq<Byte>>)
    ensures |Wire(labels)| >= 1
  {
  }

  lemma {:induction false} EncodeRestExact(rest: seq<Byte>, n: nat, outMax: int)
    ensures EncodeRest(rest, n, outMax)
            == if GoodLabels(Labels(rest)) && n + |Wire(Labels(rest))| <= outMax then Some(Wire(Labels(rest))) else None
    decreases |rest|
  {
    hide *;
    if rest == [] {
      NothingLeft(n, outMax);
    } else {
      EncodeRestExact(Behind(rest), n + 1 + FirstDot(rest), outMax);
      LabelsStep(rest);
      EncodeStep(rest, n, outMax, rest[..FirstDot(rest)], Wire(Labels(Behind(rest))), GoodLabels(Labels(Behind(rest))),
                 Wire(Labels(rest)), GoodLabels(Labels(rest)));
    }
  }

  lemma NothingLeft(n: nat, outMax: int)
    ensures EncodeRest([], n, outMax) == if n + 1 <= outMax then Some([0]) else None
    ensures Labels([]) == [] && GoodLabels([]) && Wire([]) == [0]
  {
  }

  lemma LabelsStep(rest: seq<Byte>)
    requires rest != []
    ensures var l, more := rest[..FirstDot(rest)], Labels(Behind(rest));
            && Wire(Labels(rest)) == [|l| % 256] + l + Wire(more) && |Wire(more)| >= 1
            && (GoodLabels(Labels(rest)) <==> 1 <= |l| <= 63 && GoodLabels(more))
  {
    var l, more := rest[..FirstDot(rest)], Labels(Behind(rest));
    assert Labels(rest) == [l] + more;
    hide *;
    GoodCons(l, more);
    WireCons(l, more);
    WireEnds(more);
  }

  lemma EncodeStep(
      rest: seq<Byte>, n: nat, outMax: int, l: seq<Byte>, w: seq<Byte>, good: bool, w': seq<Byte>, good': bool)
    requires rest != [] && l == rest[..FirstDot(rest)] && |w| >= 1
    requires EncodeRest(Behind(rest), n + 1 + |l|, outMax)
             == if good && n + 1 + |l| + |w| <= outMax then Some(w) else None
    requires w' == [|l| % 256] + l + w && (good' <==> 1 <= |l| <= 63 && good)
    ensures EncodeRest(rest, n, outMax) == if good' && n + |w'| <= outMax then Some(w') else None
  {
    hide FirstDot, Behind;
    assert |w'| == 1 + |l| + |w|;
  }

  /** The encoder takes exactly the names whose labels have 1 to 63 bytes and that fit, and writes each
      label behind its length; one final dot makes no difference. */
  lemma EncodeExact(name: seq<Byte>, outMax: int)
    ensures EncodeQname(name, outMax)
            == if outMax >= 2 && GoodLabels(Labels(name)) && |Wire(Labels(name))| <= outMax
               then Some(Wire(Labels(name)))
               else None
  {
    EncodeRestExact(name, 0, outMax);
  }

  // ---------- the backward encoder ----------

  /** strlen: where the first zero is. */
  function StrLen(s: seq<Byte>): (n: nat)
    ensures n <= |s| && (n < |s| ==> s[n] == 0) && forall i :: 0 <= i < n ==> s[i] != 0
  {
    if s == [] || s[0] == 0 then 0 else StrLen(s[1..]) + 1
  }

  /** What ch_name leaves in its buffer, and how many bytes of it it returns. */
  function Backward(name: seq<Byte>): (seq<Byte>, nat)
  {
    var t := Wire(Split(name));
    (t, StrLen(t) + 1)
  }

  ghost predicate CStrings(labels: seq<seq<Byte>>)
  {
    labels == [] || (CString(labels[0]) && CStrings(labels[1..]))
  }

  lemma {:induction false} WireBytes(labels: seq<seq<Byte>>)
    requires GoodLabels(labels) && CStrings(labels)
    ensures Wire(labels)[|Wire(labels)| - 1] == 0 && forall i :: 0 <= i < |Wire(labels)| - 1 ==> Wire(labels)[i] != 0
  {
    if labels != [] {
      WireBytes(labels[1..]);
      WireEnds(labels[1..]);
    }
  }

  lemma StrLenIs(s: seq<Byte>, n: nat)
    requires n < |s| && s[n] == 0 && forall i :: 0 <= i < n ==> s[i] != 0
    ensures StrLen(s) == n
  {
    assert StrLen(s) >= n && StrLen(s) <= n;
  }

  lemma EmptySplit()
    ensures Split([]) == [[]] && Wire([[]]) == [0, 0]
  {
    var none: seq<Byte> := [];
    assert FirstDot(none) == 0;
    assert Split(none) == [none];
    WireCons(none, []);
  }

  /** A final dot is one more empty label. */
  lemma {:induction false} SplitIsLabels(name: seq<Byte>)
    ensures Wire(Split(name)) == Wire(Labels(name)) + if |Split(name)| == |Labels(name)| then [] else [0]
    ensures |Split(name)| == |Labels(name)| || |Split(name)| == |Labels(name)| + 1
    decreases |name|
  {
    if name == [] {
      EmptySplit();
    } else if FirstDot(name) == |name| {
      SplitLast(name);
      hide Wire, FirstDot;
      assert Wire([name]) + [] == Wire([name]);
    } else {
      var n, more := FirstDot(name), name[FirstDot(name) + 1..];
      SplitMore(name);
      SplitIsLabels(more);
      hide Wire, Split, Labels, FirstDot;
      WireCons(name[..n], Split(more));
      WireCons(name[..n], Labels(more));
      Tail([|name[..n]| % 256] + name[..n], Wire(Split(more)), Wire(Labels(more)), [0]);
    }
  }

  lemma Tail(a: seq<Byte>, x: seq<Byte>, y: seq<Byte>, z: seq<Byte>)
    ensures x == y + z ==> a + x == a + y + z
    ensures x == y + [] ==> a + x == a + y + []
  {
  }

  lemma SplitLast(name: seq<Byte>)
    requires name != [] && FirstDot(name) == |name|
    ensures Split(name) == Labels(name) == [name]
  {
    hide FirstDot;
    assert name[..|name|] == name;
    assert [name] + [] == [name];
  }

  lemma SplitMore(name: seq<Byte>)
    requires FirstDot(name) < |name|
    ensures var n := FirstDot(name);
            Split(name) == [name[..n]] + Split(name[n + 1..]) && Labels(name) == [name[..n]] + Labels(name[n + 1..])
  {
    hide FirstDot;
  }

  lemma {:induction false} LabelsAreCStrings(name: seq<Byte>)
    requires CString(name)
    ensures CStrings(Labels(name))
    decreases |name|
  {
    if name != [] {
      var n := FirstDot(name);
      LabelsAreCStrings(Behind(name));
      assert ([name[..n]] + Labels(Behind(name)))[1..] == Labels(Behind(name));
    }
  }

  /** Whatever the forward encoder accepts, the backward encoder writes the same bytes. */
  lemma EncodersAgree(name: seq<Byte>, outMax: int)
    requires CString(name) && EncodeQname(name, outMax).Some?
    ensures var (t, r) := Backward(name); r <= |t| && EncodeQname(name, outMax) == Some(t[..r])
  {
    EncodeExact(name, outMax);
    LabelsAreCStrings(name);
    SplitIsLabels(name);
    var w := Wire(Labels(name));
    WireBytes(Labels(name));
    WireEnds(Labels(name));
    StrLenIs(Wire(Split(name)), |w| - 1);
    assert Wire(Split(name))[..|w|] == w;
  }

  // ---------- the decoder ----------

  const MAX_HOPS := 128

  /** A decoded name and the place behind it. */
  datatype Read = Read(name: seq<Byte>, end: nat)

  /** st_dns_decode_qname in its loop: at off, with the name read so far. */
  function DecodeRest(pkt: seq<Byte>, off: nat, name: seq<Byte>, hops: nat, nameMax: int): Option<Read>
    decreases |pkt| - off
  {
    if off >= |pkt| || hops >= MAX_HOPS then None
    else
      var lab := pkt[off];
      if lab == 0 then Some(Read(if name == [] then [DOT] else name, off + 1))
      else if lab > 63 || off + 1 + lab > |pkt| then None
      else if name != [] && |name| + 1 >= nameMax then None
      else
        var base := if name == [] then [] else name + [DOT];
        if |base| + lab >= nameMax then None
        else DecodeRest(pkt, off + 1 + lab, base + pkt[off + 1..off + 1 + lab], hops + 1, nameMax)
  }

  function DecodeQname(pkt: seq<Byte>, off: nat, nameMax: int): Option<Read>
  {
    if nameMax < 2 then None else DecodeRest(pkt, off, [], 0, nameMax)
  }

  /** A name made longer by labels, as the decoder does it. */
  function Extend(name: seq<Byte>, labels: seq<seq<Byte>>): seq<Byte>
    decreases |labels|
  {
    if labels == [] then name else Extend((if name == [] then [] else name + [DOT]) + labels[0], labels[1..])
  }

  lemma {:induction false} ExtendIs(name: seq<Byte>, labels: seq<seq<Byte>>)
    requires GoodLabels(labels) && labels != []
    ensures Extend(name, labels) == (if name == [] then [] else name + [DOT]) + Join(labels)
    decreases |labels|
  {
    var base := if name == [] then [] else name + [DOT];
    if |labels| == 1 {
      assert labels[1..] == [];
    } else {
      ExtendIs(base + labels[0], labels[1..]);
      assert base + labels[0] + [DOT] + Join(labels[1..]) == base + (labels[0] + [DOT] + Join(labels[1..]));
    }
  }

  /** What the decoder gives for these labels, ending at end. */
  function Decoded(name: seq<Byte>, labels: seq<seq<Byte>>, hops: nat, nameMax: int, end: nat): Option<Read>
  {
    var full := Extend(name, labels);
    if hops + |labels| >= MAX_HOPS || (labels != [] && |full| >= nameMax) then None
    else Some(Read(if full == [] then [DOT] else full, end))
  }

  lemma {:induction false} ExtendGrows(name: seq<Byte>, labels: seq<seq<Byte>>)
    ensures |Extend(name, labels)| >= |name|
    ensures labels != [] ==> |Extend(name, labels)| >= (if name == [] then 0 else |name| + 1) + |labels[0]|
    decreases |labels|
  {
    if labels != [] {
      ExtendGrows((if name == [] then [] else name + [DOT]) + labels[0], labels[1..]);
    }
  }

  ghost predicate WireAt(pkt: seq<Byte>, off: nat, labels: seq<seq<Byte>>)
  {
    off + |Wire(labels)| <= |pkt| && pkt[off..off + |Wire(labels)|] == Wire(labels)
  }

  lemma WireAtStep(pkt: seq<Byte>, off: nat, labels: seq<seq<Byte>>)
    requires WireAt(pkt, off, labels) && GoodLabels(labels)
    ensures off < |pkt|
    ensures if labels == [] then pkt[off] == 0 && |Wire(labels)| == 1
            else
              && pkt[off] == |labels[0]| && off + 1 + |labels[0]| <= |pkt| && 1 <= |labels[0]| <= 63
              && pkt[off + 1..off + 1 + |labels[0]|] == labels[0] && WireAt(pkt, off + 1 + |labels[0]|, labels[1..])
              && |Wire(labels)| == 1 + |labels[0]| + |Wire(labels[1..])|
  {
    if labels != [] {
      WireEnds(labels[1..]);
      hide Wire;
      WireCons(labels[0], labels[1..]);
      assert [labels[0]] + labels[1..] == labels;
      Cut(pkt, off, labels[0], Wire(labels[1..]));
    } else {
      assert pkt[off..off + 1][0] == pkt[off];
    }
  }

  lemma Cut(pkt: seq<Byte>, off: nat, l: seq<Byte>, w: seq<Byte>)
    requires |l| < 256 && off + 1 + |l| + |w| <= |pkt| && pkt[off..off + 1 + |l| + |w|] == [|l| % 256] + l + w
    ensures pkt[off] == |l| && pkt[off + 1..off + 1 + |l|] == l && pkt[off + 1 + |l|..off + 1 + |l| + |w|] == w
  {
    var t := pkt[off..off + 1 + |l| + |w|];
    assert t[0] == pkt[off] && t[1..1 + |l|] == l && t[1 + |l|..] == w;
    PartOfPart(pkt, off, |t|, 1, 1 + |l|);
    PartOfPart(pkt, off, |t|, 1 + |l|, |t|);
    assert t[1 + |l|..|t|] == t[1 + |l|..];
  }

  lemma PartOfPart(s: seq<Byte>, off: nat, n: nat, i: nat, j: nat)
    requires off + n <= |s| && i <= j <= n
    ensures s[off..off + n][i..j] == s[off + i..off + j]
  {
    var a := s[off..off + n];
    forall k | 0 <= k < j - i
      ensures a[i..j][k] == s[off + i..off + j][k]
    {
      assert a[i + k] == s[off + (i + k)];
    }
  }

  lemma {:induction false} DecodeRestExact(
      pkt: seq<Byte>, off: nat, labels: seq<seq<Byte>>, name: seq<Byte>, hops: nat, nameMax: int)
    requires WireAt(pkt, off, labels) && GoodLabels(labels)
    ensures DecodeRest(pkt, off, name, hops, nameMax) == Decoded(name, labels, hops, nameMax, off + |Wire(labels)|)
    decreases |labels|
  {
    hide Wire, WireAt;
    WireAtStep(pkt, off, labels);
    ExtendGrows(name, labels);
    if labels != [] {
      var lab := |labels[0]|;
      var base := if name == [] then [] else name + [DOT];
      ExtendGrows(base + labels[0], labels[1..]);
      DecodeRestExact(pkt, off + 1 + lab, labels[1..], base + labels[0], hops + 1, nameMax);
      DecodeStep(pkt, off, name, hops, nameMax, labels[0]);
      DecodedStep(name, labels, hops, nameMax, off + |Wire(labels)|);
    }
  }

  lemma DecodeStep(pkt: seq<Byte>, off: nat, name: seq<Byte>, hops: nat, nameMax: int, l: seq<Byte>)
    requires off + 1 + |l| <= |pkt| && pkt[off] == |l| && 1 <= |l| <= 63 && pkt[off + 1..off + 1 + |l|] == l
    ensures var base := if name == [] then [] else name + [DOT];
            DecodeRest(pkt, off, name, hops, nameMax)
            == if hops >= MAX_HOPS || |base + l| >= nameMax then None
               else DecodeRest(pkt, off + 1 + |l|, base + l, hops + 1, nameMax)
  {
  }

  lemma DecodedStep(name: seq<Byte>, labels: seq<seq<Byte>>, hops: nat, nameMax: int, end: nat)
    requires labels != []
    ensures var next := (if name == [] then [] else name + [DOT]) + labels[0];
            Decoded(name, labels, hops, nameMax, end)
            == if hops >= MAX_HOPS || |next| >= nameMax then None
               else Decoded(next, labels[1..], hops + 1, nameMax, end)
  {
    ExtendGrows((if name == [] then [] else name + [DOT]) + labels[0], labels[1..]);
  }

  /** Decoding labels on the wire gives the dotted name, or a single dot for the root, and the place
      behind it, exactly when there are fewer than 128 of them and the name fits. */
  lemma DecodeExact(pkt: seq<Byte>, off: nat, labels: seq<seq<Byte>>, nameMax: int)
    requires WireAt(pkt, off, labels) && GoodLabels(labels)
    ensures DecodeQname(pkt, off, nameMax)
            == if nameMax < 2 || |labels| >= MAX_HOPS || (labels != [] && |Join(labels)| >= nameMax) then None
               else Some(Read(if labels == [] then [DOT] else Join(labels), off + |Wire(labels)|))
  {
    DecodeRestExact(pkt, off, labels, [], 0, nameMax);
    if labels != [] {
      ExtendIs([], labels);
      assert [] + Join(labels) == Join(labels);
      ExtendGrows([], labels);
    }
  }

  /** The decoder accepts nothing but labels on the wire. */
  lemma {:induction false} DecodeOnlyWire(pkt: seq<Byte>, off: nat, name: seq<Byte>, hops: nat, nameMax: int)
      returns (labels: seq<seq<Byte>>)
    requires DecodeRest(pkt, off, name, hops, nameMax).Some?
    ensures GoodLabels(labels) && WireAt(pkt, off, labels)
    decreases |pkt| - off
  {
    if pkt[off] == 0 {
      labels := [];
      assert pkt[off..off + 1] == [0];
    } else {
      var lab := pkt[off];
      var l := pkt[off + 1..off + 1 + lab];
      var more := DecodeOnlyWire(pkt, off + 1 + lab, (if name == [] then [] else name + [DOT]) + l, hops + 1, nameMax);
      labels := [l] + more;
      GoodCons(l, more);
      WireCons(l, more);
      hide Wire;
      Glue(pkt, off, l, Wire(more));
    }
  }

  lemma Glue(pkt: seq<Byte>, off: nat, l: seq<Byte>, w: seq<Byte>)
    requires off + 1 + |l| + |w| <= |pkt| && pkt[off] == |l| && |l| < 256
    requires pkt[off + 1..off + 1 + |l|] == l && pkt[off + 1 + |l|..off + 1 + |l| + |w|] == w
    ensures pkt[off..off + 1 + |l| + |w|] == [|l| % 256] + l + w
  {
  }

  // ---------- the zone ----------

  const BENCH: seq<Byte> := [98, 101, 110, 99, 104]
  const STHREAD: seq<Byte> := [115, 116, 104, 114, 101, 97, 100]
  const LOCAL: seq<Byte> := [108, 111, 99, 97, 108]

  /** The zones of st_dns_name_in_zone, with their leading dot. */
  const ZONES: seq<seq<Byte>> := [[DOT] + BENCH + [DOT] + LOCAL, [DOT] + BENCH + [DOT] + STHREAD + [DOT] + LOCAL]

  predicate EndsWith(s: seq<Byte>, t: seq<Byte>)
  {
    |t| <= |s| && s[|s| - |t|..] == t
  }

  /** st_dns_name_in_zone of a name that ends at its first zero. */
  predicate InZone(name: seq<Byte>)
  {
    var c := name[..StrLen(name)];
    c != [] && exists i :: 0 <= i < |ZONES| && (c == ZONES[i][1..] || EndsWith(c, ZONES[i]))
  }

  /** The labels end with these labels. */
  predicate Under(labels: seq<seq<Byte>>, zone: seq<seq<Byte>>)
  {
    |zone| <= |labels| && labels[|labels| - |zone|..] == zone
  }

  lemma FirstDotIs(s: seq<Byte>, n: nat)
    requires n <= |s| && (n < |s| ==> s[n] == DOT) && forall i :: 0 <= i < n ==> s[i] != DOT
    ensures FirstDot(s) == n
  {
    assert FirstDot(s) >= n && FirstDot(s) <= n;
  }

  lemma {:induction false} SplitDot(a: seq<Byte>, b: seq<Byte>)
    ensures Split(a + [DOT] + b) == Split(a) + Split(b)
    decreases |a|
  {
    var s, n := a + [DOT] + b, FirstDot(a);
    FirstDotIs(s, n);
    hide FirstDot;
    assert s[..n] == a[..n];
    if n == |a| {
      assert s[n + 1..] == b && a[..n] == a;
    } else {
      assert s[n + 1..] == a[n + 1..] + [DOT] + b;
      SplitDot(a[n + 1..], b);
    }
  }

  lemma {:induction false} SplitJoin(labels: seq<seq<Byte>>)
    requires labels != [] && Plain(labels)
    ensures Split(Join(labels)) == labels
  {
    FirstDotIs(labels[0], |labels[0]|);
    if |labels| > 1 {
      SplitJoin(labels[1..]);
      SplitDot(labels[0], Join(labels[1..]));
    }
  }

  lemma {:induction false} JoinSplice(a: seq<seq<Byte>>, b: seq<seq<Byte>>)
    requires a != [] && b != []
    ensures Join(a + b) == Join(a) + [DOT] + Join(b)
  {
    assert (a + b)[0] == a[0] && (a + b)[1..] == a[1..] + b;
    if |a| == 1 {
      assert a[1..] + b == b;
    } else {
      JoinSplice(a[1..], b);
    }
  }

  lemma UnderIsSuffix(labels: seq<seq<Byte>>, zone: seq<seq<Byte>>)
    requires labels != [] && zone != [] && Plain(labels) && Plain(zone)
    ensures Join(labels) == Join(zone) || EndsWith(Join(labels), [DOT] + Join(zone)) <==> Under(labels, zone)
  {
    SplitJoin(labels);
    SplitJoin(zone);
    hide Plain, Split, Join;
    SuffixUnder(labels, zone);
    if Under(labels, zone) {
      UnderSuffix(labels, zone);
    }
  }

  lemma SuffixUnder(labels: seq<seq<Byte>>, zone: seq<seq<Byte>>)
    requires Split(Join(labels)) == labels && Split(Join(zone)) == zone
    ensures Join(labels) == Join(zone) || EndsWith(Join(labels), [DOT] + Join(zone)) ==> Under(labels, zone)
  {
    var name, z := Join(labels), Join(zone);
    hide Split, Join;
    if EndsWith(name, [DOT] + z) {
      var a := name[..|name| - |z| - 1];
      assert name == a + ([DOT] + z) == a + [DOT] + z;
      SplitDot(a, z);
      LastPart(Split(a), zone);
    } else if name == z {
      LastPart([], zone);
      assert [] + zone == zone;
    }
  }

  lemma LastPart<T>(a: seq<T>, b: seq<T>)
    ensures (a + b)[|a + b| - |b|..] == b
  {
  }

  lemma UnderSuffix(labels: seq<seq<Byte>>, zone: seq<seq<Byte>>)
    requires zone != [] && Under(labels, zone)
    ensures Join(labels) == Join(zone) || EndsWith(Join(labels), [DOT] + Join(zone))
  {
    var pre := labels[..|labels| - |zone|];
    assert labels == pre + zone;
    hide Join;
    if pre != [] {
      JoinSplice(pre, zone);
      assert Join(labels) == Join(pre) + ([DOT] + Join(zone));
      LastPart(Join(pre), [DOT] + Join(zone));
    } else {
      assert labels == zone;
    }
  }

  lemma {:induction false} JoinHasNoZero(labels: seq<seq<Byte>>)
    requires Plain(labels)
    ensures CString(Join(labels))
  {
    if |labels| > 1 {
      JoinHasNoZero(labels[1..]);
    }
  }

  lemma ZoneNames()
    ensures Plain([BENCH, LOCAL]) && Plain([BENCH, STHREAD, LOCAL])
    ensures |ZONES| == 2 && ZONES[0] == [DOT] + Join([BENCH, LOCAL])
            && ZONES[1] == [DOT] + Join([BENCH, STHREAD, LOCAL])
  {
    var z1, z2 := [BENCH, LOCAL], [BENCH, STHREAD, LOCAL];
    assert z1[1..] == [LOCAL] && z2[1..] == [STHREAD, LOCAL] && [STHREAD, LOCAL][1..] == [LOCAL];
    assert [LOCAL][1..] == [];
  }

  /** The zone test on bytes is a test on whole labels. */
  lemma ZoneIsLabels(labels: seq<seq<Byte>>)
    requires labels != [] && Plain(labels) && GoodLabels(labels)
    ensures InZone(Join(labels)) <==> Under(labels, [BENCH, LOCAL]) || Under(labels, [BENCH, STHREAD, LOCAL])
  {
    var name := Join(labels);
    JoinHasNoZero(labels);
    StrLenAll(name);
    assert name[..|name|] == name;
    ZoneNames();
    UnderIsSuffix(labels, [BENCH, LOCAL]);
    UnderIsSuffix(labels, [BENCH, STHREAD, LOCAL]);
    JoinNotEmpty(labels);
    hide Join, Under, EndsWith, Plain, StrLen;
    assert ZONES[0][1..] == Join([BENCH, LOCAL]) && ZONES[1][1..] == Join([BENCH, STHREAD, LOCAL]);
  }

  lemma StrLenAll(s: seq<Byte>)
    requires CString(s)
    ensures StrLen(s) == |s|
  {
    assert StrLen(s) >= |s|;
  }

  lemma JoinNotEmpty(labels: seq<seq<Byte>>)
    requires labels != [] && GoodLabels(labels)
    ensures Join(labels) != []
  {
  }
}
