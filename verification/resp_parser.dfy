/** RespParser of app/st_redisclient/resp.cc with its growing buffer, the decoder over it, and the
    command encoder, in place. */
module RespParser {
  import opened Queues
  import opened Bytes
  import opened RespModel
  import opened RespStream

  function AsResult(rc: int, v: Value, used: nat): Result
  {
    if rc == 1 then Done(v, used) else if rc == 0 then More else Bad
  }

  lemma Sub(s: array<Byte>, off: nat, n: nat, i: nat, j: nat)
    requires off + n <= s.Length && i <= j <= n
    ensures s[off..off + n][i..j] == s[off + i..off + j]
  {
    var b := s[off..off + n];
    forall k | 0 <= k < j - i
      ensures b[i..j][k] == s[off + i..off + j][k]
    {
      assert b[i + k] == s[off + i + k];
    }
  }

  method FindLine(s: array<Byte>, off: nat, n: nat) returns (cr: int)
    requires off + n <= s.Length
    ensures cr == FindCrlf(s[off..off + n], 0)
  {
    ghost var b := s[off..off + n];
    var i := 0;
    while i + 1 < n
      invariant 0 <= i <= n
      invariant FindCrlf(b, i) == FindCrlf(b, 0)
    {
      if s[off + i] == CR && s[off + i + 1] == LF {
        return i;
      }
      i := i + 1;
    }
    return -1;
  }

  method ParseLineAt(s: array<Byte>, off: nat, n: nat) returns (rc: int, v: Value, used: nat)
    requires off + n <= s.Length && n > 0 && (s[off] == 43 || s[off] == 45 || s[off] == 58)
    ensures AsResult(rc, v, used) == ParseLine(s[off..off + n])
    ensures rc == 1 || rc == 0 || rc == -1
  {
    hide FindCrlf, Strtoll;
    ghost var b := s[off..off + n];
    v, used := Null, 0;
    var cr := FindLine(s, off, n);
    if cr < 0 {
      return 0, v, used;
    }
    Sub(s, off, n, 1, n);
    if s[off] == 58 {
      v := Integer(Strtoll(s[off + 1..off + n]));
    } else {
      assert cr > 0;
      Sub(s, off, n, 1, cr);
      v := if s[off] == 45 then Error(s[off + 1..off + cr]) else Simple(s[off + 1..off + cr]);
    }
    return 1, v, cr + 2;
  }

  method ParseBulkAt(s: array<Byte>, off: nat, n: nat) returns (rc: int, v: Value, used: nat)
    requires off + n <= s.Length && n > 0 && s[off] == 36
    ensures AsResult(rc, v, used) == ParseBulk(s[off..off + n])
    ensures rc == 1 || rc == 0 || rc == -1
  {
    hide FindCrlf, Atoi;
    ghost var b := s[off..off + n];
    v, used := Null, 0;
    var cr := FindLine(s, off, n);
    if cr < 0 {
      return 0, v, used;
    }
    Sub(s, off, n, 1, n);
    var blen := Atoi(s[off + 1..off + n]);
    if blen == -1 {
      return 1, Null, cr + 2;
    }
    if blen < 0 || blen > MAX_BULK {
      return -1, v, used;
    }
    var body := cr + 2;
    if n < body + blen + 2 {
      return 0, v, used;
    }
    if s[off + body + blen] != CR || s[off + body + blen + 1] != LF {
      return -1, v, used;
    }
    Sub(s, off, n, body, body + blen);
    return 1, Bulk(s[off + body..off + body + blen]), body + blen + 2;
  }

  function Prepend(vs: seq<Value>, r: ListResult): ListResult
  {
    if r.ListDone? then ListDone(vs + r.vs, r.pos) else r
  }

  method ParseArrayAt(s: array<Byte>, off: nat, n: nat, depth: nat) returns (rc: int, v: Value, used: nat)
    requires off + n <= s.Length && n > 0 && s[off] == 42 && depth <= MAX_DEPTH + 1
    ensures AsResult(rc, v, used) == ParseArray(s[off..off + n], depth)
    ensures rc == 1 || rc == 0 || rc == -1
    ensures rc == 1 ==> used <= n
    decreases MAX_DEPTH + 1 - depth, 1
  {
    hide FindCrlf, Atoi, ParseOne;
    ghost var b := s[off..off + n];
    v, used := Null, 0;
    if depth > MAX_DEPTH {
      return -1, v, used;
    }
    var cr := FindLine(s, off, n);
    if cr < 0 {
      return 0, v, used;
    }
    Sub(s, off, n, 1, n);
    var count := Atoi(s[off + 1..off + n]);
    if count < 0 || count > MAX_ARRAY {
      return -1, v, used;
    }
    var vs := [];
    var pos := cr + 2;
    var i := 0;
    while i < count
      invariant 0 <= i <= count && cr + 2 <= pos <= n
      invariant Prepend(vs, ParseElems(b, pos, count - i, depth)) == ParseElems(b, cr + 2, count, depth)
    {
      var e, w, u := ParseOneAt(s, off + pos, n - pos, depth + 1);
      Sub(s, off, n, pos, n);
      if e != 1 {
        return e, v, used;
      }
      Unfold(b, vs, w, pos, u, count - i, depth);
      vs := vs + [w];
      pos := pos + u;
      i := i + 1;
    }
    assert vs + [] == vs;
    return 1, Array(vs), pos;
  }

  lemma Unfold(b: seq<Byte>, vs: seq<Value>, w: Value, pos: nat, u: nat, count: nat, depth: nat)
    requires pos <= |b| && count > 0 && depth <= MAX_DEPTH && ParseOne(b[pos..], depth + 1) == Done(w, u)
    ensures pos + u <= |b|
    ensures Prepend(vs, ParseElems(b, pos, count, depth)) == Prepend(vs + [w], ParseElems(b, pos + u, count - 1, depth))
  {
    hide ParseOne;
    var more := ParseElems(b, pos + u, count - 1, depth);
    if more.ListDone? {
      assert vs + ([w] + more.vs) == vs + [w] + more.vs;
    }
  }

  method ParseOneAt(s: array<Byte>, off: nat, n: nat, depth: nat) returns (rc: int, v: Value, used: nat)
    requires off + n <= s.Length && depth <= MAX_DEPTH + 1
    ensures AsResult(rc, v, used) == ParseOne(s[off..off + n], depth)
    ensures rc == 1 ==> used <= n
    ensures rc == 1 || rc == 0 || rc == -1
    decreases MAX_DEPTH + 1 - depth, 2
  {
    hide ParseLine, ParseBulk, ParseArray;
    v, used := Null, 0;
    if n < 1 {
      return 0, v, used;
    }
    if s[off] == 43 || s[off] == 45 || s[off] == 58 {
      rc, v, used := ParseLineAt(s, off, n);
    } else if s[off] == 36 {
      rc, v, used := ParseBulkAt(s, off, n);
    } else if s[off] == 42 {
      rc, v, used := ParseArrayAt(s, off, n, depth);
    } else {
      rc := -1;
    }
  }

  class RespParser {
    var buf: array<Byte>
    var len: nat

    /** m->cap is the length of the array; a zero byte follows the bytes kept. */
    ghost predicate Valid()
      reads this, buf
    {
      ParserOk(View()) && len <= buf.Length && (len > 0 ==> len < buf.Length && buf[len] == 0)
    }

    ghost function View(): Parser
      reads this, buf
    {
      Parser(if len <= buf.Length then buf[..len] else [], buf.Length)
    }

    constructor ()
      ensures Valid() && View() == Parser([], 0) && fresh(buf)
    {
      buf, len := new Byte[0], 0;
    }

    /** Makes room by doubling, and appends; -1 when 2 MiB are not enough. */
    method Append(data: seq<Byte>) returns (rc: int)
      requires Valid()
      modifies this, buf
      ensures Valid() && (buf == old(buf) || fresh(buf))
      ensures rc == if RespStream.Append(old(View()), data).Some? then 0 else -1
      ensures View() == if rc == 0 then RespStream.Append(old(View()), data).value else old(View())
    {
      if data == [] {
        return 0;
      }
      ghost var p := View();
      AppendExact(p, data);
      var need := len + |data| + 1;
      var cap := if buf.Length == 0 then 256 else buf.Length;
      GrowExact(need, cap);
      while need > cap
        invariant cap > 0
        invariant Grow(need, cap) == Grow(need, if buf.Length == 0 then 256 else buf.Length)
        decreases need - cap
      {
        if cap > MIB {
          return -1;
        }
        cap := cap * 2;
      }
      if cap != buf.Length {
        Reserve(cap);
      }
      Extend(data);
      return 0;
    }

    /** realloc. */
    method Reserve(cap: nat)
      requires len <= buf.Length <= cap
      modifies `buf
      ensures fresh(buf) && buf.Length == cap && buf[..len] == old(buf[..len])
    {
      var nb := new Byte[cap];
      forall i | 0 <= i < len {
        nb[i] := buf[i];
      }
      buf := nb;
    }

    /** memcpy behind the bytes kept, and the terminator. */
    method Extend(data: seq<Byte>)
      requires len + |data| < buf.Length
      modifies `len, buf
      ensures len == old(len) + |data| && buf[..len] == old(buf[..len]) + data && buf[len] == 0
    {
      forall i | 0 <= i < |data| {
        buf[len + i] := data[i];
      }
      len := len + |data|;
      buf[len] := 0;
    }

    /** memmove of the bytes behind the first `used` to the front, and the terminator. */
    method Shift(used: nat)
      requires used <= len < buf.Length
      modifies `len, buf
      ensures len == old(len) - used && buf[..len] == old(buf[used..len]) && buf[len] == 0
    {
      var left := len - used;
      forall i | 0 <= i < left {
        buf[i] := buf[used + i];
      }
      len := left;
      buf[len] := 0;
    }

    /** 1 with the next value, 0 for more bytes, -1 for an error. */
    method Parse(data: seq<Byte>) returns (rc: int, v: Value)
      requires Valid()
      modifies this, buf
      ensures Valid() && (buf == old(buf) || fresh(buf))
      ensures (View(), if rc == 1 then Got(v) else if rc == 0 then Wait else Fail)
              == RespStream.Parse(old(View()), data)
      ensures rc == 1 || rc == 0 || rc == -1
    {
      hide ParseOne;
      v := Null;
      rc := Append(data);
      if rc != 0 {
        return -1, v;
      }
      if len <= 0 {
        return 0, v;
      }
      ghost var b := buf[..len];
      var used;
      rc, v, used := ParseOneAt(buf, 0, len, 0);
      assert buf[0..len] == b;
      if rc == 1 {
        Shift(used);
      }
    }
  }

  // ---------- the command encoder ----------

  /** snprintf: as much of the text as fits before a terminator; the length the text has. */
  method Snprintf(out: array<Byte>, at: nat, size: nat, text: seq<Byte>) returns (n: nat)
    requires at + size <= out.Length && size > 0
    modifies out
    ensures n == |text|
    ensures out[..at] == old(out[..at])
    ensures n < size ==> out[at..at + n] == text && out[at + n] == 0
  {
    n := |text|;
    var fit := if n < size then n else size - 1;
    forall i | 0 <= i < fit {
      out[at + i] := text[i];
    }
    out[at + fit] := 0;
  }

  method Memcpy(out: array<Byte>, at: nat, text: seq<Byte>)
    requires at + |text| <= out.Length
    modifies out
    ensures out[..at + |text|] == old(out[..at]) + text
  {
    forall i | 0 <= i < |text| {
      out[at + i] := text[i];
    }
  }

  /** The arguments up to the first null one. */
  ghost predicate NoneNull(argv: seq<Option<seq<Byte>>>)
  {
    forall i :: 0 <= i < |argv| ==> argv[i].Some?
  }

  function Texts(argv: seq<Option<seq<Byte>>>): (ts: seq<seq<Byte>>)
    requires NoneNull(argv)
    ensures |ts| == |argv| && forall i :: 0 <= i < |ts| ==> ts[i] == argv[i].value
  {
    if argv == [] then [] else [argv[0].value] + Texts(argv[1..])
  }

  /** The command's length, or -1 when an argument is null or the command and a terminator do not fit. */
  method Encode(out: array<Byte>, argv: seq<Option<seq<Byte>>>) returns (used: int)
    modifies out
    ensures used != -1 <==> argv != [] && NoneNull(argv) && |Command(Texts(argv))| < out.Length
    ensures used != -1 ==> used == |Command(Texts(argv))| && out[..used] == Command(Texts(argv)) && out[used] == 0
  {
    if out.Length <= 0 || argv == [] {
      return -1;
    }
    hide Enc, Dec, EncFrom, Written;
    var cap := out.Length;
    ghost var whole := NoneNull(argv);
    ghost var vs := if whole then Bulks(Texts(argv)) else [];
    var n := Snprintf(out, 0, cap, [42 as Byte] + Dec(|argv|) + CRLF);
    if n >= cap {
      if whole {
        HeadShort(vs);
      }
      return -1;
    }
    used := n;
    assert out[..used] == out[0..0 + n];
    if whole {
      HeadWritten(out[..used], vs);
    }
    var i := 0;
    while i < |argv|
      invariant 0 <= i <= |argv| && 0 < used < cap && out[used] == 0
      invariant whole ==> |vs| == |argv| && Written(out[..used], vs, i)
      invariant !whole ==> exists k :: i <= k < |argv| && argv[k].None?
    {
      if argv[i].None? {
        return -1;
      }
      if whole {
        OneMore(out[..used], vs, i);
      }
      var ok: bool;
      used, ok := EncodeOne(out, used, argv[i].value);
      if !ok {
        return -1;
      }
      i := i + 1;
    }
    if whole {
      AllWritten(out[..used], vs);
    }
  }

  /** w is what comes before the k-th value in the encoding of the array. */
  ghost predicate Written(w: seq<Byte>, vs: seq<Value>, k: nat)
  {
    k <= |vs| && w + EncFrom(vs, k) == Enc(Array(vs))
  }

  lemma HeadShort(vs: seq<Value>)
    ensures |[42 as Byte] + Dec(|vs|) + CRLF| <= |Enc(Array(vs))|
  {
  }

  lemma HeadWritten(w: seq<Byte>, vs: seq<Value>)
    requires w == [42 as Byte] + Dec(|vs|) + CRLF
    ensures Written(w, vs, 0)
  {
  }

  lemma OneMore(w: seq<Byte>, vs: seq<Value>, k: nat)
    requires Written(w, vs, k) && k < |vs|
    ensures Written(w + Enc(vs[k]), vs, k + 1) && |w + Enc(vs[k])| <= |Enc(Array(vs))|
  {
    hide Enc;
    assert w + Enc(vs[k]) + EncFrom(vs, k + 1) == w + EncFrom(vs, k);
  }

  lemma AllWritten(w: seq<Byte>, vs: seq<Value>)
    requires Written(w, vs, |vs|)
    ensures w == Enc(Array(vs))
  {
    hide Enc;
    assert w + [] == w;
  }

  /** One argument as a bulk string behind what is written. */
  method EncodeOne(out: array<Byte>, at: nat, text: seq<Byte>) returns (used: nat, ok: bool)
    requires at < out.Length
    modifies out
    ensures ok <==> at + |Enc(Bulk(text))| < out.Length
    ensures ok ==> used == at + |Enc(Bulk(text))| && out[..used] == old(out[..at]) + Enc(Bulk(text)) && out[used] == 0
  {
    hide Dec;
    used := at;
    var head := [36 as Byte] + Dec(|text|) + CRLF;
    var n := Snprintf(out, used, out.Length - used, head);
    if used + n >= out.Length {
      return used, false;
    }
    used := used + n;
    assert out[..used] == out[..at] + out[at..at + n];
    if used + |text| + 2 >= out.Length {
      return used, false;
    }
    Memcpy(out, used, text);
    used := used + |text|;
    ghost var done := out[..used];
    out[used], out[used + 1] := CR, LF;
    used := used + 2;
    out[used] := 0;
    assert out[..used] == done + CRLF;
    return used, true;
  }
}
