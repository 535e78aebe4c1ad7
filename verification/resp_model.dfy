/** RESP of app/st_redisclient/resp.cc on values: what its decoder makes of a byte string, and the
    encoding of values (RESP2, Redis serialization protocol specification). */
module RespModel {

  import opened Bytes

  const CRLF: seq<Byte> := [CR, LF]

  const MAX_BULK: int := 1024 * 1024
  const MAX_ARRAY: int := 32
  const MAX_DEPTH: int := 4

  datatype Value =
    | Simple(text: seq<Byte>)
    | Error(text: seq<Byte>)
    | Integer(i: int)
    | Bulk(data: seq<Byte>)
    | Null
    | Array(elems: seq<Value>)

  /** 0, -1, or 1 with the value and the number of bytes it took. */
  datatype Result = More | Bad | Done(v: Value, used: nat)

  datatype ListResult = ListMore | ListBad | ListDone(vs: seq<Value>, pos: nat)

  // ---------- numbers as libc reads them ----------

  predicate IsSpace(c: Byte)
  {
    c == 32 || 9 <= c <= 13
  }

  function SkipSpace(s: seq<Byte>): seq<Byte>
  {
    if s != [] && IsSpace(s[0]) then SkipSpace(s[1..]) else s
  }

  /** strtoll and strtol in base ten with 64 bits: blanks, a sign, digits; saturating. */
  function Strtoll(s: seq<Byte>): int
  {
    var t := SkipSpace(s);
    var negative := t != [] && t[0] == 45;
    var u := if t != [] && (t[0] == 45 || t[0] == 43) then t[1..] else t;
    Clamp(negative, DigitValue(Digits(u)))
  }

  function Clamp(negative: bool, n: int): int
  {
    if negative then (if n > 0x8000_0000_0000_0000 then -0x8000_0000_0000_0000 else -n)
    else if n > 0x7fff_ffff_ffff_ffff then 0x7fff_ffff_ffff_ffff else n
  }

  /** atoi: strtol cut to 32 bits. */
  function Atoi(s: seq<Byte>): int
  {
    (Strtoll(s) + 0x8000_0000) % 0x1_0000_0000 - 0x8000_0000
  }

  // ---------- the decoder ----------

  /** The first CR LF from i on, or -1. */
  function FindCrlf(s: seq<Byte>, i: nat): (k: int)
    requires i <= |s|
    ensures k == -1 || (i <= k && k + 2 <= |s| && s[k] == CR && s[k + 1] == LF)
    decreases |s| - i
  {
    if i + 1 >= |s| then -1
    else if s[i] == CR && s[i + 1] == LF then i
    else FindCrlf(s, i + 1)
  }

  function ParseLine(s: seq<Byte>): (r: Result)
    requires s != [] && (s[0] == 43 || s[0] == 45 || s[0] == 58)
  {
    var cr := FindCrlf(s, 0);
    if cr < 0 then More
    else Done(if s[0] == 58 then Integer(Strtoll(s[1..]))
              else if s[0] == 45 then Error(s[1..cr]) else Simple(s[1..cr]), cr + 2)
  }

  function ParseBulk(s: seq<Byte>): (r: Result)
    requires s != [] && s[0] == 36
  {
    var cr := FindCrlf(s, 0);
    if cr < 0 then More
    else
      var blen := Atoi(s[1..]);
      var body := cr + 2;
      if blen == -1 then Done(Null, body)
      else if blen < 0 || blen > MAX_BULK then Bad
      else if |s| < body + blen + 2 then More
      else if s[body + blen] != CR || s[body + blen + 1] != LF then Bad
      else Done(Bulk(s[body..body + blen]), body + blen + 2)
  }

  function ParseArray(s: seq<Byte>, depth: nat): (r: Result)
    requires s != [] && s[0] == 42 && depth <= MAX_DEPTH + 1
    ensures r.Done? ==> r.used <= |s|
    decreases MAX_DEPTH + 1 - depth, 1, 0
  {
    if depth > MAX_DEPTH then Bad
    else
      var cr := FindCrlf(s, 0);
      if cr < 0 then More
      else
        var count := Atoi(s[1..]);
        if count < 0 || count > MAX_ARRAY then Bad
        else
          match ParseElems(s, cr + 2, count, depth)
          case ListMore => More
          case ListBad => Bad
          case ListDone(vs, pos) => Done(Array(vs), pos)
  }

  /** `count` elements from pos on. */
  function ParseElems(s: seq<Byte>, pos: nat, count: nat, depth: nat): (r: ListResult)
    requires pos <= |s| && depth <= MAX_DEPTH
    ensures r.ListDone? ==> pos <= r.pos <= |s|
    decreases MAX_DEPTH + 1 - depth, 0, count
  {
    if count == 0 then ListDone([], pos)
    else
      match ParseOne(s[pos..], depth + 1)
      case More => ListMore
      case Bad => ListBad
      case Done(v, used) =>
        match ParseElems(s, pos + used, count - 1, depth)
        case ListMore => ListMore
        case ListBad => ListBad
        case ListDone(vs, end) => ListDone([v] + vs, end)
  }

  function ParseOne(s: seq<Byte>, depth: nat): (r: Result)
    requires depth <= MAX_DEPTH + 1
    ensures r.Done? ==> r.used <= |s|
    decreases MAX_DEPTH + 1 - depth, 2, 0
  {
    if s == [] then More
    else if s[0] == 43 || s[0] == 45 || s[0] == 58 then ParseLine(s)
    else if s[0] == 36 then ParseBulk(s)
    else if s[0] == 42 then ParseArray(s, depth)
    else Bad
  }

  // ---------- the encoding ----------

  /** Decimal digits of n. */
  function Dec(n: nat): (d: seq<Byte>)
    ensures d != [] && forall i :: 0 <= i < |d| ==> IsDigit(d[i])
    decreases n
  {
    if n < 10 then [48 + n] else Dec(n / 10) + [48 + n % 10]
  }

  function DecInt(i: int): (d: seq<Byte>)
  {
    if i < 0 then [45 as Byte] + Dec(-i) else Dec(i)
  }

  function Enc(v: Value): (e: seq<Byte>)
    ensures e != []
    decreases v
  {
    match v
    case Simple(text) => [43 as Byte] + text + CRLF
    case Error(text) => [45 as Byte] + text + CRLF
    case Integer(i) => [58 as Byte] + DecInt(i) + CRLF
    case Bulk(data) => [36 as Byte] + Dec(|data|) + CRLF + data + CRLF
    case Null => [36 as Byte, 45, 49] + CRLF
    case Array(elems) => [42 as Byte] + Dec(|elems|) + CRLF + EncFrom(elems, 0)
  }

  /** The encodings of the elements from k on, one after the other. */
  function EncFrom(vs: seq<Value>, k: nat): (e: seq<Byte>)
    requires k <= |vs|
    decreases vs, |vs| - k
  {
    if k == |vs| then [] else Enc(vs[k]) + EncFrom(vs, k + 1)
  }

  /** What the protocol and the decoder's limits allow at nesting level depth. */
  ghost predicate WellFormed(v: Value, depth: nat)
    decreases v
  {
    match v
    case Simple(text) => NoCrlf(text)
    case Error(text) => NoCrlf(text)
    case Integer(i) => -0x8000_0000_0000_0000 <= i <= 0x7fff_ffff_ffff_ffff
    case Bulk(data) => |data| <= MAX_BULK
    case Null => true
    case Array(elems) =>
      depth <= MAX_DEPTH && |elems| <= MAX_ARRAY && forall i :: 0 <= i < |elems| ==> WellFormed(elems[i], depth + 1)
  }

  /** No CR followed by LF, and none made by the CR LF that ends the line. */
  ghost predicate NoCrlf(s: seq<Byte>)
  {
    forall i :: 0 <= i < |s| - 1 ==> s[i] != CR || s[i + 1] != LF
  }

  // ---------- numbers ----------

  lemma {:induction false} ValueOfDec(n: nat)
    ensures DigitValue(Dec(n)) == n
    decreases n
  {
    if n < 10 {
      assert Dec(n)[..0] == [];
      assert DigitValue(Dec(n)[..0]) == 0;
    } else {
      ValueOfDec(n / 10);
      assert Dec(n)[..|Dec(n)| - 1] == Dec(n / 10);
    }
  }

  lemma ReadUnsigned(n: nat, t: seq<Byte>)
    requires t == [] || !IsDigit(t[0])
    ensures DigitValue(Digits(Dec(n) + t)) == n
    ensures IsDigit((Dec(n) + t)[0])
  {
    DigitsStop(Dec(n), t);
    ValueOfDec(n);
  }

  /** The number read back, whatever follows it. */
  lemma ReadDec(i: int, t: seq<Byte>)
    requires -0x8000_0000_0000_0000 <= i <= 0x7fff_ffff_ffff_ffff
    requires t == [] || !IsDigit(t[0])
    ensures Strtoll(DecInt(i) + t) == i
    ensures -0x8000_0000 <= i < 0x8000_0000 ==> Atoi(DecInt(i) + t) == i
  {
    hide Dec, Digits, DigitValue;
    var s := DecInt(i) + t;
    if i < 0 {
      ReadUnsigned(-i, t);
      assert s[1..] == Dec(-i) + t;
    } else {
      ReadUnsigned(i, t);
    }
  }

  // ---------- lines ----------

  lemma {:induction false} FindAt(s: seq<Byte>, i: nat, k: nat)
    requires i <= k && k + 2 <= |s| && s[k] == CR && s[k + 1] == LF
    requires forall j :: i <= j < k ==> s[j] != CR || s[j + 1] != LF
    ensures FindCrlf(s, i) == k
    decreases k - i
  {
    if i < k {
      FindAt(s, i + 1, k);
    }
  }

  lemma {:induction false} FindNone(s: seq<Byte>, i: nat)
    requires i <= |s| && forall j :: i <= j < |s| - 1 ==> s[j] != CR || s[j + 1] != LF
    ensures FindCrlf(s, i) == -1
    decreases |s| - i
  {
    if i + 1 < |s| {
      FindNone(s, i + 1);
    }
  }

  /** The line head + CR LF in a longer string of which n bytes have come. */
  lemma FindInPrefix(head: seq<Byte>, rest: seq<Byte>, n: nat)
    requires NoCrlf(head) && n <= |head| + 2 + |rest|
    ensures var s := head + CRLF + rest;
            FindCrlf(s[..n], 0) == if n < |head| + 2 then -1 else |head|
  {
    var s := head + CRLF + rest;
    var p := s[..n];
    assert forall j :: 0 <= j < |head| ==> s[j] == head[j];
    assert s[|head|] == CR && s[|head| + 1] == LF;
    if n < |head| + 2 {
      FindNone(p, 0);
    } else {
      FindAt(p, 0, |head|);
    }
  }

  // ---------- decoding what was encoded ----------

  lemma TextHead(c: Byte, text: seq<Byte>)
    requires NoCrlf(text) && c != CR
    ensures NoCrlf([c] + text)
  {
  }

  lemma NumberHead(c: Byte, i: int)
    requires c != CR
    ensures NoCrlf([c] + DecInt(i))
  {
    hide Dec;
    assert forall k :: 0 <= k < |DecInt(i)| ==> DecInt(i)[k] != CR;
  }

  /** The state of a decoder that has n bytes of a value's encoding and what follows it. */
  ghost predicate DecodedAt(r: Result, n: nat, size: nat, v: Value)
  {
    r == if n < size then More else Done(v, size)
  }

  lemma LineDecodes(c: Byte, body: seq<Byte>, rest: seq<Byte>, n: nat, v: Value)
    requires c == 43 || c == 45 || c == 58
    requires NoCrlf([c] + body) && n <= |body| + 3 + |rest|
    requires c == 43 ==> v == Simple(body)
    requires c == 45 ==> v == Error(body)
    requires c == 58 ==> v.Integer? && body == DecInt(v.i) && -0x8000_0000_0000_0000 <= v.i <= 0x7fff_ffff_ffff_ffff
    ensures var s := [c] + body + CRLF + rest;
            forall depth: nat :: depth <= MAX_DEPTH + 1 ==> DecodedAt(ParseOne(s[..n], depth), n, |body| + 3, v)
  {
    hide DecInt, Strtoll;
    var head := [c] + body;
    var s := head + CRLF + rest;
    FindInPrefix(head, rest, n);
    var p := s[..n];
    if n >= |body| + 3 {
      assert p[1..|body| + 1] == body;
      if c == 58 {
        assert p[1..] == DecInt(v.i) + p[|body| + 1..];
        ReadDec(v.i, p[|body| + 1..]);
      }
    }
  }

  lemma BulkDecodes(data: seq<Byte>, rest: seq<Byte>, n: nat)
    requires |data| <= MAX_BULK
    requires n <= |Enc(Bulk(data)) + rest|
    ensures var s := Enc(Bulk(data)) + rest;
            forall depth: nat :: depth <= MAX_DEPTH + 1 ==>
              DecodedAt(ParseOne(s[..n], depth), n, |Enc(Bulk(data))|, Bulk(data))
  {
    var head := [36 as Byte] + Dec(|data|);
    var more := data + CRLF + rest;
    var s := Enc(Bulk(data)) + rest;
    assert s == head + CRLF + more;
    NumberHead(36, |data|);
    FindInPrefix(head, more, n);
    var p := s[..n];
    if n >= |head| + 2 {
      assert p[1..] == DecInt(|data|) + p[|head|..];
      ReadDec(|data|, p[|head|..]);
      BodyDecodes(p, |head|, data, rest, n);
    } else {
      assert p == [] || p[0] == 36;
    }
  }

  lemma BodyDecodes(p: seq<Byte>, cr: nat, data: seq<Byte>, rest: seq<Byte>, n: nat)
    requires |p| == n && cr + 2 <= n && p[0] == 36 && FindCrlf(p, 0) == cr && Atoi(p[1..]) == |data| <= MAX_BULK
    requires n <= cr + 2 + |data| + 2 + |rest| && p[cr + 2..] == (data + CRLF + rest)[..n - cr - 2]
    ensures DecodedAt(ParseBulk(p), n, cr + 2 + |data| + 2, Bulk(data))
  {
    hide Atoi, FindCrlf;
    var body := cr + 2;
    var t := p[body..];
    if n >= body + |data| + 2 {
      assert t[..|data|] == data && t[|data|] == CR && t[|data| + 1] == LF;
      assert p[body..body + |data|] == t[..|data|];
      assert p[body + |data|] == t[|data|] && p[body + |data| + 1] == t[|data| + 1];
    }
  }

  lemma NullDecodes(rest: seq<Byte>, n: nat)
    requires n <= |Enc(Null) + rest|
    ensures var s := Enc(Null) + rest;
            forall depth: nat :: depth <= MAX_DEPTH + 1 ==> DecodedAt(ParseOne(s[..n], depth), n, |Enc(Null)|, Null)
  {
    hide Atoi;
    var head := [36 as Byte, 45, 49];
    var s := Enc(Null) + rest;
    assert s == head + CRLF + rest;
    FindInPrefix(head, rest, n);
    var p := s[..n];
    if n >= 5 {
      assert DecInt(-1) == [45, 49];
      assert p[1..] == DecInt(-1) + p[3..];
      ReadDec(-1, p[3..]);
    }
  }

  /** The decoder wants more on every strict prefix of an encoding, and gives exactly the value as soon
      as the whole of it has come, whatever has come behind it. */
  lemma {:induction false} Decodes(v: Value, depth: nat, rest: seq<Byte>, n: nat)
    requires depth <= MAX_DEPTH + 1 && WellFormed(v, depth) && n <= |Enc(v) + rest|
    ensures DecodedAt(ParseOne((Enc(v) + rest)[..n], depth), n, |Enc(v)|, v)
    decreases v, 0
  {
    hide ParseOne;
    match v
    case Simple(text) =>
      TextHead(43, text);
      LineDecodes(43, text, rest, n, v);
    case Error(text) =>
      TextHead(45, text);
      LineDecodes(45, text, rest, n, v);
    case Integer(i) =>
      NumberHead(58, i);
      LineDecodes(58, DecInt(i), rest, n, v);
    case Bulk(data) => BulkDecodes(data, rest, n);
    case Null => NullDecodes(rest, n);
    case Array(elems) => ArrayDecodes(elems, depth, rest, n);
  }

  lemma {:induction false} ArrayDecodes(vs: seq<Value>, depth: nat, rest: seq<Byte>, n: nat)
    requires depth <= MAX_DEPTH && |vs| <= MAX_ARRAY && forall i :: 0 <= i < |vs| ==> WellFormed(vs[i], depth + 1)
    requires n <= |Enc(Array(vs)) + rest|
    ensures DecodedAt(ParseOne((Enc(Array(vs)) + rest)[..n], depth), n, |Enc(Array(vs))|, Array(vs))
    decreases vs, |vs| + 1
  {
    var head := [42 as Byte] + Dec(|vs|);
    var more := EncFrom(vs, 0) + rest;
    var s := Enc(Array(vs)) + rest;
    assert s == head + CRLF + more;
    NumberHead(42, |vs|);
    FindInPrefix(head, more, n);
    var p := s[..n];
    if n >= |head| + 2 {
      assert p[1..] == DecInt(|vs|) + p[|head|..];
      ReadDec(|vs|, p[|head|..]);
      ElemsDecode(vs, 0, depth, head + CRLF, rest, n);
      assert head + CRLF + EncFrom(vs, 0) + rest == s;
      assert vs[0..] == vs;
      hide Dec, Atoi, FindCrlf, ParseElems, EncFrom, DecInt;
    } else {
      assert p == [] || p[0] == 42;
    }
  }

  lemma {:induction false} ElemsDecode(vs: seq<Value>, k: nat, depth: nat, before: seq<Byte>, rest: seq<Byte>, n: nat)
    requires depth <= MAX_DEPTH && k <= |vs| && forall i :: k <= i < |vs| ==> WellFormed(vs[i], depth + 1)
    requires |before| <= n <= |before + EncFrom(vs, k) + rest|
    ensures var size := |before| + |EncFrom(vs, k)|;
            ParseElems((before + EncFrom(vs, k) + rest)[..n], |before|, |vs| - k, depth)
            == if n < size then ListMore else ListDone(vs[k..], size)
    decreases vs, |vs| - k
  {
    hide Enc, ParseOne;
    var p := (before + EncFrom(vs, k) + rest)[..n];
    if k < |vs| {
      var tail := EncFrom(vs, k + 1) + rest;
      assert before + EncFrom(vs, k) + rest == before + (Enc(vs[k]) + tail);
      assert p[|before|..] == (Enc(vs[k]) + tail)[..n - |before|];
      Decodes(vs[k], depth + 1, tail, n - |before|);
      if n - |before| >= |Enc(vs[k])| {
        var before' := before + Enc(vs[k]);
        assert before' + EncFrom(vs, k + 1) + rest == before + EncFrom(vs, k) + rest;
        ElemsDecode(vs, k + 1, depth, before', rest, n);
        assert [vs[k]] + vs[k + 1..] == vs[k..];
      }
    }
  }
}
