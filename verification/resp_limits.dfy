/** What the decoder refuses: sizes and nesting beyond its limits, and a bulk string that does not end where its
    length says. */
module RespLimits {
  import opened Bytes
  import opened RespModel
  import opened RespStream

  /** What the protocol can express, with lengths of 31 bits; the decoder's limits are left aside. */
  ghost predicate Encodable(v: Value)
    decreases v
  {
    match v
    case Simple(text) => NoCrlf(text)
    case Error(text) => NoCrlf(text)
    case Integer(i) => -0x8000_0000_0000_0000 <= i <= 0x7fff_ffff_ffff_ffff
    case Bulk(data) => |data| < 0x8000_0000
    case Null => true
    case Array(elems) => |elems| < 0x8000_0000 && forall i :: 0 <= i < |elems| ==> Encodable(elems[i])
  }

  /** The first line of a bulk string or an array, and the number on it. */
  lemma HeadLine(c: Byte, i: int, more: seq<Byte>)
    requires c != CR && -0x8000_0000 <= i < 0x8000_0000
    ensures var head := [c] + DecInt(i);
            var s := head + CRLF + more;
            s[0] == c && FindCrlf(s, 0) == |head| && Atoi(s[1..]) == i
  {
    hide Atoi, FindCrlf, DecInt;
    var head := [c] + DecInt(i);
    var s := head + CRLF + more;
    NumberHead(c, i);
    FindInPrefix(head, more, |s|);
    assert s[..|s|] == s;
    assert s[1..] == DecInt(i) + (CRLF + more);
    ReadDec(i, CRLF + more);
  }

  /** A length that is neither -1 nor within the limit is refused as soon as its line has come. */
  lemma BadLength(i: int, more: seq<Byte>, depth: nat)
    requires depth <= MAX_DEPTH + 1 && -0x8000_0000 <= i < 0x8000_0000 && (i < -1 || i > MAX_BULK)
    ensures ParseOne([36 as Byte] + DecInt(i) + CRLF + more, depth) == Bad
  {
    hide Atoi, FindCrlf, DecInt, ParseElems;
    HeadLine(36, i, more);
  }

  /** So is a count outside its limit, and any array nested too deep. */
  lemma BadCount(i: int, more: seq<Byte>, depth: nat)
    requires depth <= MAX_DEPTH + 1 && -0x8000_0000 <= i < 0x8000_0000
    requires i < 0 || i > MAX_ARRAY || depth > MAX_DEPTH
    ensures ParseOne([42 as Byte] + DecInt(i) + CRLF + more, depth) == Bad
  {
    hide Atoi, FindCrlf, DecInt, ParseElems;
    HeadLine(42, i, more);
  }

  /** A bulk string is refused if its two last bytes are not CR LF. */
  lemma NoTerminator(data: seq<Byte>, x: Byte, y: Byte, rest: seq<Byte>, depth: nat)
    requires depth <= MAX_DEPTH + 1 && |data| <= MAX_BULK && (x != CR || y != LF)
    ensures ParseOne([36 as Byte] + Dec(|data|) + CRLF + data + [x, y] + rest, depth) == Bad
  {
    hide Atoi, FindCrlf, Dec, ParseElems;
    var s := [36 as Byte] + Dec(|data|) + CRLF + data + [x, y] + rest;
    HeadLine(36, |data|, data + [x, y] + rest);
    assert s == [36 as Byte] + DecInt(|data|) + CRLF + (data + [x, y] + rest);
    var at := |Dec(|data|)| + 3 + |data|;
    assert s[at] == x && s[at + 1] == y;
  }

  /** The decoder's limits are exactly those of WellFormed: of what the protocol can express it gives the value
      and takes its bytes if sizes and nesting are within them, and refuses it otherwise, at any depth. */
  lemma {:induction false} LimitsExact(v: Value, depth: nat, rest: seq<Byte>)
    requires Encodable(v) && depth <= MAX_DEPTH + 1
    ensures ParseOne(Enc(v) + rest, depth) == if WellFormed(v, depth) then Done(v, |Enc(v)|) else Bad
    decreases v, 0
  {
    hide ParseOne, Dec, EncFrom;
    var s := Enc(v) + rest;
    if WellFormed(v, depth) {
      Decodes(v, depth, rest, |s|);
      assert s[..|s|] == s;
    } else if v.Bulk? {
      assert s == [36 as Byte] + DecInt(|v.data|) + CRLF + (v.data + CRLF + rest);
      BadLength(|v.data|, v.data + CRLF + rest, depth);
    } else {
      var more := EncFrom(v.elems, 0) + rest;
      assert s == [42 as Byte] + DecInt(|v.elems|) + CRLF + more;
      if depth > MAX_DEPTH || |v.elems| > MAX_ARRAY {
        BadCount(|v.elems|, more, depth);
      } else {
        BadElement(v.elems, depth, rest);
      }
    }
  }

  /** So of one call that has the whole of a value: it gives the value or fails. */
  lemma CallAnswers(p: Parser, data: seq<Byte>, v: Value, rest: seq<Byte>)
    requires ParserOk(p) && p.buf + data == Enc(v) + rest && Encodable(v)
    requires data == [] || |p.buf| + |data| + 1 <= 2 * MIB
    ensures Parse(p, data).1 == if WellFormed(v, 0) then Got(v) else Fail
  {
    hide ParseOne, Enc, Encodable, WellFormed;
    NoByteIsLost(p, data);
    LimitsExact(v, 0, rest);
  }

  lemma {:induction false} BadElement(vs: seq<Value>, depth: nat, rest: seq<Byte>)
    requires depth <= MAX_DEPTH && |vs| <= MAX_ARRAY && forall i :: 0 <= i < |vs| ==> Encodable(vs[i])
    requires exists i :: 0 <= i < |vs| && !WellFormed(vs[i], depth + 1)
    ensures ParseOne([42 as Byte] + DecInt(|vs|) + CRLF + (EncFrom(vs, 0) + rest), depth) == Bad
    decreases vs, |vs| + 1
  {
    hide Atoi, FindCrlf, DecInt, ParseElems, EncFrom, WellFormed, Encodable;
    var head := [42 as Byte] + DecInt(|vs|) + CRLF;
    var s := head + (EncFrom(vs, 0) + rest);
    HeadLine(42, |vs|, EncFrom(vs, 0) + rest);
    ElemsRefused(vs, 0, depth, head, rest);
    assert head + EncFrom(vs, 0) + rest == s;
  }

  lemma {:induction false} ElemsRefused(vs: seq<Value>, k: nat, depth: nat, before: seq<Byte>, rest: seq<Byte>)
    requires depth <= MAX_DEPTH && k <= |vs| && forall i :: 0 <= i < |vs| ==> Encodable(vs[i])
    requires exists i :: k <= i < |vs| && !WellFormed(vs[i], depth + 1)
    ensures ParseElems(before + EncFrom(vs, k) + rest, |before|, |vs| - k, depth) == ListBad
    decreases vs, |vs| - k
  {
    hide Enc, ParseOne, WellFormed, Encodable;
    var s := before + EncFrom(vs, k) + rest;
    var tail := EncFrom(vs, k + 1) + rest;
    assert s[|before|..] == Enc(vs[k]) + tail;
    LimitsExact(vs[k], depth + 1, tail);
    if WellFormed(vs[k], depth + 1) {
      var before' := before + Enc(vs[k]);
      assert before' + EncFrom(vs, k + 1) + rest == s;
      ElemsRefused(vs, k + 1, depth, before', rest);
    }
  }

  // ---------- numbers that are not spelled as the protocol spells them ----------

  /** Blanks, one sign at most, digits, and something that is no part of the number. */
  ghost predicate NumberText(blanks: seq<Byte>, sign: seq<Byte>, d: seq<Byte>, rest: seq<Byte>)
  {
    && (forall i :: 0 <= i < |blanks| ==> IsSpace(blanks[i])) && (forall i :: 0 <= i < |d| ==> IsDigit(d[i]))
    && (sign == [] || sign == [43] || sign == [45])
    && (rest == [] || !IsDigit(rest[0]))
    && (sign == [] && d == [] && rest != [] ==> !IsSpace(rest[0]) && rest[0] != 43 && rest[0] != 45)
  }

  function Signed(negative: bool, n: int): int
  {
    if negative then -n else n
  }

  /** Lengths, counts and integers are read as strtoll reads them: blanks, line ends among them, are skipped, a
      plus is allowed, no digits are 0, and what does not fit in 64 bits becomes the nearest number that does.
      Lengths and counts are then cut to 32 bits. */
  lemma NumberRead(blanks: seq<Byte>, sign: seq<Byte>, d: seq<Byte>, rest: seq<Byte>)
    requires NumberText(blanks, sign, d, rest)
    ensures var s := blanks + sign + d + rest;
            var v := Signed(sign == [45], DigitValue(d));
            && -0x8000_0000_0000_0000 <= Strtoll(s) <= 0x7fff_ffff_ffff_ffff
            && (v > 0x7fff_ffff_ffff_ffff ==> Strtoll(s) == 0x7fff_ffff_ffff_ffff)
            && (v < -0x8000_0000_0000_0000 ==> Strtoll(s) == -0x8000_0000_0000_0000)
            && (-0x8000_0000_0000_0000 <= v <= 0x7fff_ffff_ffff_ffff ==> Strtoll(s) == v)
            && -0x8000_0000 <= Atoi(s) < 0x8000_0000 && (Strtoll(s) - Atoi(s)) % 0x1_0000_0000 == 0
  {
    hide Digits, DigitValue, SkipSpace, Atoi, Clamp;
    var s, t := blanks + sign + d + rest, sign + d + rest;
    assert s == blanks + t;
    BlanksSkipped(blanks, t);
    DigitsStop(d, rest);
    if sign == [] {
      assert t == d + rest;
    } else {
      assert t[1..] == d + rest;
    }
    Clamped(sign == [45], DigitValue(d));
    CutTo32(s);
  }

  /** A number line without a number takes its value from the bytes behind the line, and leaves them there:
      of colon CR LF 5 CR LF the decoder takes three bytes and gives 5. */
  lemma EmptyNumberReadsOn()
    ensures ParseOne([58, CR, LF, 53, CR, LF], 0) == Done(Integer(5), 3)
  {
    var s: seq<Byte> := [58, CR, LF, 53, CR, LF];
    NumberRead([CR, LF], [], [53], [CR, LF]);
    assert s[1..] == [CR, LF] + [] + [53] + [CR, LF];
    assert [53 as Byte][..0] == [] && DigitValue([53]) == 5;
    FindAt(s, 0, 1);
  }

  lemma CutTo32(s: seq<Byte>)
    ensures -0x8000_0000 <= Atoi(s) < 0x8000_0000 && (Strtoll(s) - Atoi(s)) % 0x1_0000_0000 == 0
  {
    hide Strtoll;
  }

  lemma Clamped(negative: bool, n: nat)
    ensures var v := Signed(negative, n);
            var r := Clamp(negative, n);
            && -0x8000_0000_0000_0000 <= r <= 0x7fff_ffff_ffff_ffff
            && (v > 0x7fff_ffff_ffff_ffff ==> r == 0x7fff_ffff_ffff_ffff)
            && (v < -0x8000_0000_0000_0000 ==> r == -0x8000_0000_0000_0000)
            && (-0x8000_0000_0000_0000 <= v <= 0x7fff_ffff_ffff_ffff ==> r == v)
  {
  }

  lemma {:induction false} BlanksSkipped(blanks: seq<Byte>, t: seq<Byte>)
    requires forall i :: 0 <= i < |blanks| ==> IsSpace(blanks[i])
    requires t == [] || !IsSpace(t[0])
    ensures SkipSpace(blanks + t) == t
  {
    if blanks == [] {
      assert blanks + t == t;
    } else {
      assert (blanks + t)[0] == blanks[0] && (blanks + t)[1..] == blanks[1..] + t;
      BlanksSkipped(blanks[1..], t);
    }
  }
}
