/** Decoding bodies of app/st_wrk/http_parser.c under every cut of their bytes, and the exactness of the
    lengths it reads. */
module HttpDecode {
  import opened Queues
  import opened Bytes
  import opened HttpBody

  // ---------- lengths ----------

  ghost predicate IsHex(d: seq<Byte>)
  {
    forall i :: 0 <= i < |d| ==> Unhex(d[i]) != -1
  }

  /** The number hexadecimal digits spell. */
  function HexValue(d: seq<Byte>): (n: nat)
    requires forall i :: 0 <= i < |d| ==> Unhex(d[i]) != -1
  {
    if d == [] then 0
    else
      assert Unhex(d[|d| - 1]) >= 0;
      HexValue(d[..|d| - 1]) * 16 + Unhex(d[|d| - 1])
  }

  /** A run of digits that the size line has room for is accepted exactly when it spells less than
      2^64 - 16; then content_length is the number, and not the value that means "unset". */
  lemma {:induction false} SizeExact(s: State, d: seq<Byte>)
    requires s.phase == SizeStart && s.errno == Ok && Sound(s)
    requires d != [] && IsHex(d) && |d| <= MAX_HEADER_SIZE
    ensures var (s', ev, n) := Feed(s, d);
            && ev == [] && (s'.errno == Ok <==> HexValue(d) < 0xffff_ffff_ffff_fff0)
            && (s'.errno == Ok ==> s' == State(Size, HexValue(d), |d|, Ok) && n == |d| && HexValue(d) < ULLONG_MAX)
            && (s'.errno != Ok ==> s'.errno == InvalidContentLength)
    decreases |d|
  {
    hide Feed, Step, Unhex, Sound, Then;
    var init, c := d[..|d| - 1], d[|d| - 1];
    assert init + [c] == d;
    assert Unhex(c) != -1;
    if init == [] {
      assert HexValue(init) == 0;
      FirstDigit(s, c);
      assert d == [c];
    } else {
      SizeExact(s, init);
      FeedAppend(s, init, [c]);
      if HexValue(init) < 0xffff_ffff_ffff_fff0 {
        NextDigit(HexValue(init), |init|, c);
        ThenQuiet(Feed(s, init), Feed(Feed(s, init).0, [c]));
      }
    }
  }

  lemma ThenQuiet(r: (State, seq<Event>, nat), q: (State, seq<Event>, nat))
    requires r.1 == []
    ensures Then(r, q) == (q.0, q.1, r.2 + q.2)
  {
    assert [] + q.1 == q.1;
  }

  lemma FirstDigit(s: State, c: Byte)
    requires s.phase == SizeStart && s.errno == Ok && Sound(s) && Unhex(c) != -1
    ensures Feed(s, [c]) == (State(Size, Unhex(c), 1, Ok), [], 1)
  {
    FeedHead(s, [c]);
    assert [c][1..] == [];
    FeedNone(Step(s, c).0, []);
    assert Step(s, c) == (State(Size, Unhex(c), 1, Ok), []);
    ThenQuiet((Step(s, c).0, [], 1), Feed(Step(s, c).0, []));
  }

  lemma NextDigit(v: nat, k: nat, c: Byte)
    requires 1 <= k < MAX_HEADER_SIZE && v < 0xffff_ffff_ffff_fff0 && Unhex(c) != -1
    ensures Sound(State(Size, v, k, Ok)) && Unhex(c) >= 0
    ensures var (s', ev, n) := Feed(State(Size, v, k, Ok), [c]);
            if v * 16 + Unhex(c) < 0xffff_ffff_ffff_fff0
              then (s', ev, n) == (State(Size, v * 16 + Unhex(c), k + 1, Ok), [], 1)
            else s'.errno == InvalidContentLength && ev == []
  {
    var s := State(Size, v, k, Ok);
    FeedHead(s, [c]);
    assert c != CR;
    assert [c][1..] == [];
  }

  // ---------- what counts as a digit of a size ----------

  /** The table has a digit for hexadecimal digits, and a 0 for every byte from 128 on. */
  lemma TableDigits(c: Byte)
    ensures Unhex(c) != -1 <==> IsHexDigit(c) || c >= 128
    ensures c >= 128 ==> Unhex(c) == 0 && !IsHexDigit(c)
  {
  }

  /** Behind the digits of a size line the parser does not come back to them before it tells the size. */
  lemma {:induction false} NoWayBack(s: State, bs: seq<Byte>)
    requires Sound(s) && s.errno == Ok && (s.phase == Params || s.phase == SizeAlmost)
    ensures var (s', ev, _) := Feed(s, bs);
            ev == [] && s'.errno == Ok ==> s'.phase == Params || s'.phase == SizeAlmost
    decreases |bs|
  {
    if bs == [] {
      FeedNone(s, bs);
    } else {
      FeedHead(s, bs);
      var (s1, ev1) := Step(s, bs[0]);
      if s1.errno == Ok && (s1.phase == Params || s1.phase == SizeAlmost) {
        NoWayBack(s1, bs[1..]);
      }
    }
  }

  /** Inside the digits only digits, as the table has them, keep the parser there. */
  lemma {:induction false} OnlyDigitsStay(s: State, d: seq<Byte>)
    requires Sound(s) && s.errno == Ok && (s.phase == SizeStart || s.phase == Size)
    ensures var (s', ev, _) := Feed(s, d);
            ev == [] && s'.errno == Ok && s'.phase == Size ==> IsHex(d)
    decreases |d|
  {
    if d != [] {
      FeedHead(s, d);
      var (s1, ev1) := Step(s, d[0]);
      if s1.errno == Ok {
        if s1.phase == Size {
          OnlyDigitsStay(s1, d[1..]);
        } else {
          NoWayBack(s1, d[1..]);
        }
      }
    }
  }

  /** The parser is still reading the digits of a size after d. */
  ghost predicate ReadAsSize(s: State, d: seq<Byte>)
    requires Sound(s)
  {
    var (s', ev, n) := Feed(s, d);
    s'.errno == Ok && s'.phase == Size && ev == [] && n == |d|
  }

  /** A run of bytes is read as a size exactly when the table has a digit for each and the number is below
      2^64 - 16. */
  lemma SizeRunExact(s: State, d: seq<Byte>)
    requires AtChunk(s) && d != [] && |d| <= MAX_HEADER_SIZE
    ensures ReadAsSize(s, d) <==> IsHex(d) && HexValue(d) < 0xffff_ffff_ffff_fff0
  {
    hide Feed, HexValue;
    OnlyDigitsStay(s, d);
    if IsHex(d) {
      SizeExact(s, d);
    }
  }

  /** The size n as a sender spells it, with small or capital letters. */
  function HexOf(n: nat, capital: bool): (d: seq<Byte>)
    ensures d != []
    decreases n
  {
    var k := n % 16;
    var c: Byte := if k < 10 then '0' as int + k else if capital then 'A' as int + (k - 10) else 'a' as int + (k - 10);
    if n < 16 then [c] else HexOf(n / 16, capital) + [c]
  }

  /** Every size can be spelled so that it is read as itself. */
  lemma {:induction false} SizeRoundTrip(n: nat, capital: bool)
    ensures IsHex(HexOf(n, capital)) && HexValue(HexOf(n, capital)) == n
    decreases n
  {
    var d := HexOf(n, capital);
    if n < 16 {
      assert d[..0] == [];
      assert HexValue(d[..0]) == 0;
    } else {
      SizeRoundTrip(n / 16, capital);
      assert d[..|d| - 1] == HexOf(n / 16, capital);
    }
  }

  /** The bytes with a 0 for each from 128 on. */
  function Zeroed(d: seq<Byte>): (z: seq<Byte>)
    ensures |z| == |d| && forall i :: 0 <= i < |d| ==> z[i] == if d[i] >= 128 then 48 else d[i]
  {
    seq(|d|, i requires 0 <= i < |d| => if d[i] >= 128 then 48 else d[i])
  }

  lemma {:induction false} ZeroedValue(d: seq<Byte>)
    requires IsHex(d)
    ensures IsHex(Zeroed(d)) && HexValue(Zeroed(d)) == HexValue(d)
    decreases |d|
  {
    assert forall i :: 0 <= i < |d| ==> Unhex(Zeroed(d)[i]) == Unhex(d[i]);
    if d != [] {
      ZeroedValue(d[..|d| - 1]);
      assert Zeroed(d[..|d| - 1]) == Zeroed(d)[..|d| - 1];
    }
  }

  /** The bytes a size is read from are hexadecimal digits exactly when all of them are below 128: the
      others are read as so many zeros. */
  lemma SizeDigits(s: State, d: seq<Byte>)
    requires AtChunk(s) && d != [] && |d| <= MAX_HEADER_SIZE && ReadAsSize(s, d)
    ensures (forall i :: 0 <= i < |d| ==> IsHexDigit(d[i])) <==> forall i :: 0 <= i < |d| ==> d[i] < 128
    ensures Feed(s, Zeroed(d)) == Feed(s, d)
  {
    hide Feed, HexValue, Sound, Unhex, IsHexDigit;
    SizeRunExact(s, d);
    ZeroedValue(d);
    SizeExact(s, d);
    SizeExact(s, Zeroed(d));
    assert forall i :: 0 <= i < |d| ==> Unhex(d[i]) != -1;
    forall i | 0 <= i < |d|
      ensures IsHexDigit(d[i]) <==> d[i] < 128
    {
      TableDigits(d[i]);
    }
  }

  /** A byte that is no digit begins a size, and alone it is the size of the last chunk. */
  lemma HighByteIsASize()
    ensures Feed(State(SizeStart, 0, 0, Ok), [200]) == (State(Size, 0, 1, Ok), [], 1)
    ensures FeedAll(State(SizeStart, 0, 0, Ok), [[200, CR, LF, CR, LF]])
         == (State(Complete, 0, 2, Ok), [ChunkHeader(0), ChunkComplete, MessageComplete], true)
  {
    var s := State(SizeStart, 0, 0, Ok);
    FirstDigit(s, 200);
    var d: seq<Byte> := [200];
    assert HexValue(d[..0]) == 0 && ZeroOk(SizeText(d, []));
    var last := SizeText(d, []);
    assert SizeBytes(last) == d;
    StreamLeads(s, [], last);
    var bs: seq<Byte> := [200, CR, LF, CR, LF];
    assert Stream([], last) == bs && Story([]) == [ChunkHeader(0), ChunkComplete, MessageComplete];
    assert [bs][1..] == [] && bs + [] == bs;
    CutsDoNotMatter(s, [bs], State(Complete, 0, 2, Ok), Story([]));
  }

  /** The number the digits of a header value spell when the blanks in it are skipped. */
  function DecValue(d: seq<Byte>): (n: nat)
    requires forall i :: 0 <= i < |d| ==> IsDigit(d[i]) || d[i] == 32
  {
    if d == [] then 0
    else
      var c: int := d[|d| - 1];
      assert IsDigit(d[|d| - 1]) || d[|d| - 1] == 32;
      if c == 32 then DecValue(d[..|d| - 1]) else DecValue(d[..|d| - 1]) * 10 + (c - 48)
  }

  function WithoutBlanks(d: seq<Byte>): seq<Byte>
  {
    if d == [] then []
    else WithoutBlanks(d[..|d| - 1]) + if d[|d| - 1] == 32 then [] else [d[|d| - 1]]
  }

  /** It is the decimal number of the value without its blanks. */
  lemma {:induction false} BlanksDoNotCount(d: seq<Byte>)
    requires forall i :: 0 <= i < |d| ==> IsDigit(d[i]) || d[i] == 32
    ensures forall i :: 0 <= i < |WithoutBlanks(d)| ==> IsDigit(WithoutBlanks(d)[i])
    ensures DecValue(d) == DigitValue(WithoutBlanks(d))
    decreases |d|
  {
    if d != [] {
      var init := d[..|d| - 1];
      BlanksDoNotCount(init);
      if d[|d| - 1] != 32 {
        assert IsDigit(d[|d| - 1]);
        assert (WithoutBlanks(init) + [d[|d| - 1]])[..|WithoutBlanks(init)|] == WithoutBlanks(init);
      } else {
        assert WithoutBlanks(init) + [] == WithoutBlanks(init);
      }
    }
  }

  ghost predicate IsLengthValue(d: seq<Byte>)
  {
    d != [] && IsDigit(d[0]) && forall i :: 0 <= i < |d| ==> IsDigit(d[i]) || d[i] == 32
  }

  function Joined(bufs: seq<seq<Byte>>): seq<Byte>
  {
    if bufs == [] then [] else bufs[0] + Joined(bufs[1..])
  }

  /** What the calls count for a value: the first byte, and for each call that reads on its bytes and one. */
  function Counts(runs: seq<seq<Byte>>): nat
  {
    if runs == [] then 0 else |runs[0]| + 1 + Counts(runs[1..])
  }

  /** A Content-Length value up to its CR or LF, behind `nread` bytes of headers: its first byte, and the
      bytes each call finds of the rest. It is accepted exactly when it consists of digits and blanks behind
      a digit, spells less than 2^64 - 6 and is counted within the limit of the header size, where a cut
      costs one; then the number is the one it spells, wherever the cuts are, and not the value that means
      "unset". */
  method ContentLength(first: Byte, runs: seq<seq<Byte>>, nread: nat) returns (r: Option<nat>)
    ensures var d := [first] + Joined(runs);
            && (r.Some? <==> && IsLengthValue(d) && DecValue(d) < 0xffff_ffff_ffff_fffa
                             && nread + 1 + Counts(runs) <= MAX_HEADER_SIZE)
            && (r.Some? ==> r.value == DecValue(d) && r.value < ULLONG_MAX)
  {
    hide DecValue;
    ghost var all := [first] + Joined(runs);
    var count := nread + 1;
    if count > MAX_HEADER_SIZE || !IsDigit(first) {
      return None;
    }
    var c: int := first;
    var length: nat := c - 48;
    ghost var v := [first];
    DecFirst(v);
    assert v[..1] == v && runs[0..] == runs;
    var k := 0;
    while k < |runs|
      invariant k <= |runs| && v + Joined(runs[k..]) == all
      invariant IsLengthValue(v) && length == DecValue(v) < 0xffff_ffff_ffff_fffa
      invariant count <= MAX_HEADER_SIZE && count + Counts(runs[k..]) == nread + 1 + Counts(runs)
    {
      assert runs[k..][0] == runs[k] && runs[k..][1..] == runs[k + 1..];
      assert v + (runs[k] + Joined(runs[k + 1..])) == (v + runs[k]) + Joined(runs[k + 1..]);
      var more := LengthRun(v, length, runs[k]);
      if more.None? {
        assert (v + runs[k]) + Joined(runs[k + 1..]) == all;
        assert all[..|v + runs[k]|] == v + runs[k];
        DecGrows(all, |v + runs[k]|);
        return None;
      }
      count := count + |runs[k]| + 1;
      if count > MAX_HEADER_SIZE {
        return None;
      }
      length, v := more.value, v + runs[k];
      k := k + 1;
    }
    assert v + [] == v;
    return Some(length);
  }

  /** The bytes of the value in one call, when v has been read. */
  method LengthRun(ghost v: seq<Byte>, length: nat, d: seq<Byte>) returns (r: Option<nat>)
    requires IsLengthValue(v) && length == DecValue(v) < 0xffff_ffff_ffff_fffa
    ensures r.Some? <==> IsLengthValue(v + d) && DecValue(v + d) < 0xffff_ffff_ffff_fffa
    ensures r.Some? ==> r.value == DecValue(v + d)
  {
    hide DecValue;
    ghost var all := v + d;
    var n := length;
    var i := 0;
    assert all[..|v|] == v;
    while i < |d|
      invariant 0 <= i <= |d| && IsLengthValue(all[..|v| + i])
      invariant n == DecValue(all[..|v| + i]) < 0xffff_ffff_ffff_fffa
    {
      var c: int := d[i];
      DecNext(all, |v| + i);
      if c == 32 {
      } else if !IsDigit(d[i]) {
        return None;
      } else {
        var t := ShiftDec(n, c - 48);
        if t == -1 {
          DecGrows(all, |v| + i + 1);
          return None;
        }
        n := t;
      }
      i := i + 1;
    }
    assert all[..|v| + i] == all;
    return Some(n);
  }

  lemma DecFirst(d: seq<Byte>)
    requires d != [] && IsDigit(d[0])
    ensures IsLengthValue(d[..1]) && DecValue(d[..1]) == d[0] as int - 48
  {
    assert d[..1] == [d[0]] && d[..1][..0] == [];
    assert DecValue([]) == 0;
  }

  lemma DecNext(d: seq<Byte>, i: nat)
    requires 0 < i < |d| && IsLengthValue(d[..i])
    ensures IsDigit(d[i]) || d[i] == 32 ==> IsLengthValue(d[..i + 1])
    ensures IsDigit(d[i]) ==> DecValue(d[..i + 1]) == DecValue(d[..i]) * 10 + (d[i] as int - 48)
    ensures d[i] == 32 ==> DecValue(d[..i + 1]) == DecValue(d[..i])
    ensures !IsDigit(d[i]) && d[i] != 32 ==> !IsLengthValue(d)
  {
    assert d[..i + 1][..i] == d[..i];
    assert d[..i + 1][0] == d[..i][0] == d[0];
    assert forall k :: 0 <= k < i ==> d[..i + 1][k] == d[..i][k];
  }

  lemma {:induction false} DecGrows(d: seq<Byte>, k: nat)
    requires k <= |d|
    ensures IsLengthValue(d) && k > 0 ==> IsLengthValue(d[..k]) && DecValue(d[..k]) <= DecValue(d)
    decreases |d|
  {
    if k < |d| && k > 0 && IsLengthValue(d) {
      var init := d[..|d| - 1];
      DecGrows(init, k);
      assert init[..k] == d[..k];
    } else if k == |d| {
      assert d[..k] == d;
    }
  }

  // ---------- chunked bodies ----------

  /** The line with the size of a chunk: the digits, in any case and with leading zeros, and an extension. */
  datatype SizeText = SizeText(digits: seq<Byte>, ext: seq<Byte>)

  datatype Chunk = Chunk(size: SizeText, data: seq<Byte>)

  /** An extension begins with a semicolon or a blank and ends at the first CR. */
  ghost predicate ExtOk(ext: seq<Byte>)
  {
    ext != [] ==> (ext[0] == 59 || ext[0] == 32) && CR !in ext
  }

  /** The line fits the header limit. */
  ghost predicate SizeOk(t: SizeText)
  {
    && t.digits != [] && IsHex(t.digits) && ExtOk(t.ext) && |t.digits| + |t.ext| + 2 <= MAX_HEADER_SIZE
    && HexValue(t.digits) < 0xffff_ffff_ffff_fff0
  }

  /** The size line gives the size of the data. */
  ghost predicate ChunkOk(c: Chunk)
  {
    SizeOk(c.size) && c.data != [] && HexValue(c.size.digits) == |c.data|
  }

  ghost predicate ZeroOk(z: SizeText)
  {
    SizeOk(z) && HexValue(z.digits) == 0
  }

  function SizeBytes(t: SizeText): seq<Byte>
  {
    t.digits + t.ext
  }

  function Line(c: Chunk): seq<Byte>
  {
    SizeBytes(c.size) + [CR] + [LF] + (c.data + [CR] + [LF])
  }

  /** A chunked body without trailers: the chunks, the last chunk, the empty line. */
  function Stream(cs: seq<Chunk>, zero: SizeText): seq<Byte>
  {
    if cs == [] then SizeBytes(zero) + [CR] + [LF] + ([CR] + [LF])
    else Line(cs[0]) + Stream(cs[1..], zero)
  }

  function Payload(cs: seq<Chunk>): seq<Byte>
  {
    if cs == [] then [] else cs[0].data + Payload(cs[1..])
  }

  /** What the callbacks are told of the chunks. */
  function Story(cs: seq<Chunk>): seq<Event>
  {
    if cs == [] then [ChunkHeader(0)] + [ChunkComplete, MessageComplete]
    else [ChunkHeader(|cs[0].data|)] + Bodies(cs[0].data) + [ChunkComplete] + Story(cs[1..])
  }

  /** Between two chunks. */
  ghost predicate AtChunk(s: State)
  {
    s.phase == SizeStart && s.errno == Ok && Sound(s)
  }

  /** Feeding bs from s leads to s' and tells ev. */
  ghost predicate Leads(s: State, bs: seq<Byte>, s': State, ev: seq<Event>)
  {
    Sound(s) && s'.errno == Ok && Feed(s, bs) == (s', ev, |bs|)
  }

  lemma LeadsThen(s: State, a: seq<Byte>, s1: State, ev: seq<Event>, b: seq<Byte>, s2: State, more: seq<Event>)
    requires Leads(s, a, s1, ev) && Leads(s1, b, s2, more)
    ensures Leads(s, a + b, s2, ev + more)
  {
    FeedAppend(s, a, b);
  }

  lemma LeadsByte(s: State, c: Byte)
    requires Sound(s) && !Stopped(s) && Step(s, c).0.errno == Ok
    ensures Leads(s, [c], Step(s, c).0, Step(s, c).1)
  {
    FeedHead(s, [c]);
    assert [c][1..] == [];
    FeedNone(Step(s, c).0, []);
    assert Step(s, c).1 + [] == Step(s, c).1;
  }

  lemma LeadsSilent(s: State, a: seq<Byte>, s1: State, ev: seq<Event>, b: seq<Byte>, s2: State)
    requires Leads(s, a, s1, ev) && Leads(s1, b, s2, [])
    ensures Leads(s, a + b, s2, ev)
  {
    hide Leads;
    LeadsThen(s, a, s1, ev, b, s2, []);
    assert ev + [] == ev;
  }

  lemma SizeEndLeads(p: Phase, v: nat, k: nat)
    requires (p == Size || p == Params) && v < ULLONG_MAX && k + 2 <= MAX_HEADER_SIZE
    ensures Leads(State(p, v, k, Ok), [CR], State(SizeAlmost, v, k + 1, Ok), [])
    ensures Leads(State(SizeAlmost, v, k + 1, Ok), [LF], State(if v == 0 then TrailerStart else Data, v, 0, Ok),
                  [ChunkHeader(v)])
  {
    LeadsByte(State(p, v, k, Ok), CR);
    LeadsByte(State(SizeAlmost, v, k + 1, Ok), LF);
  }

  /** The bytes of an extension are passed over. */
  lemma {:induction false} ParamsLead(v: nat, k: nat, ext: seq<Byte>)
    requires v < ULLONG_MAX && k + |ext| <= MAX_HEADER_SIZE && CR !in ext
    ensures Leads(State(Params, v, k, Ok), ext, State(Params, v, k + |ext|, Ok), [])
    decreases |ext|
  {
    var s := State(Params, v, k, Ok);
    if ext == [] {
      FeedNone(s, []);
    } else {
      LeadsByte(s, ext[0]);
      ParamsLead(v, k + 1, ext[1..]);
      hide Leads;
      assert [ext[0]] + ext[1..] == ext;
      LeadsSilent(s, [ext[0]], State(Params, v, k + 1, Ok), [], ext[1..], State(Params, v, k + |ext|, Ok));
    }
  }

  lemma ExtLeads(v: nat, k: nat, ext: seq<Byte>)
    requires v < ULLONG_MAX && k + |ext| <= MAX_HEADER_SIZE && ExtOk(ext)
    ensures Leads(State(Size, v, k, Ok), ext, State(if ext == [] then Size else Params, v, k + |ext|, Ok), [])
  {
    var s := State(Size, v, k, Ok);
    if ext == [] {
      FeedNone(s, []);
    } else {
      LeadsByte(s, ext[0]);
      ParamsLead(v, k + 1, ext[1..]);
      hide Leads;
      assert [ext[0]] + ext[1..] == ext;
      LeadsSilent(s, [ext[0]], State(Params, v, k + 1, Ok), [], ext[1..], State(Params, v, k + |ext|, Ok));
    }
  }

  /** The size line of a chunk. */
  lemma SizeLineLeads(s: State, t: SizeText)
    requires AtChunk(s) && SizeOk(t)
    ensures var v := HexValue(t.digits);
            Leads(s, SizeBytes(t) + [CR] + [LF], State(if v == 0 then TrailerStart else Data, v, 0, Ok),
                  [ChunkHeader(v)])
  {
    hide Feed, Step, HexValue, ExtOk;
    var d, v, k := t.digits, HexValue(t.digits), |t.digits| + |t.ext|;
    SizeExact(s, d);
    var s0, s1, s2 := State(Size, v, |d|, Ok), State(if t.ext == [] then Size else Params, v, k, Ok),
                      State(SizeAlmost, v, k + 1, Ok);
    assert Leads(s, d, s0, []);
    SizeEndLeads(s1.phase, v, k);
    ExtLeads(v, |d|, t.ext);
    hide Leads;
    LeadsSilent(s, d, s0, [], t.ext, s1);
    LeadsSilent(s, SizeBytes(t), s1, [], [CR], s2);
    LeadsThen(s, SizeBytes(t) + [CR], s2, [], [LF], State(if v == 0 then TrailerStart else Data, v, 0, Ok),
              [ChunkHeader(v)]);
    assert [] + [ChunkHeader(v)] == [ChunkHeader(v)];
  }

  lemma BodyLeads(data: seq<Byte>)
    requires data != [] && |data| < ULLONG_MAX
    ensures Leads(State(Data, |data|, 0, Ok), data, State(DataAlmost, 0, 0, Ok), Bodies(data))
  {
    hide Bodies, Feed, BulkEvents;
    var s, s1 := State(Data, |data|, 0, Ok), State(DataAlmost, 0, 0, Ok);
    FeedBody(s, data, |data|);
    FeedNone(s1, []);
    assert data[..|data|] == data && data[|data|..] == [];
    JustBodies(data);
  }

  lemma JustBodies(data: seq<Byte>)
    ensures BulkEvents(State(Data, |data|, 0, Ok), data) + [] == Bodies(data)
  {
    hide Bodies;
    assert Bodies(data) + [] + [] == Bodies(data);
  }

  lemma DataEndLeads()
    ensures Leads(State(DataAlmost, 0, 0, Ok), [CR], State(DataDone, 0, 0, Ok), [])
    ensures Leads(State(DataDone, 0, 0, Ok), [LF], State(SizeStart, 0, 0, Ok), [ChunkComplete])
  {
    LeadsByte(State(DataAlmost, 0, 0, Ok), CR);
    LeadsByte(State(DataDone, 0, 0, Ok), LF);
  }

  /** The data of a chunk and the line end behind it. */
  lemma DataLeads(data: seq<Byte>)
    requires data != [] && |data| < ULLONG_MAX
    ensures Leads(State(Data, |data|, 0, Ok), data + [CR] + [LF], State(SizeStart, 0, 0, Ok),
                  Bodies(data) + [ChunkComplete])
  {
    var s, s1, s2 := State(Data, |data|, 0, Ok), State(DataAlmost, 0, 0, Ok), State(DataDone, 0, 0, Ok);
    hide Feed, Bodies, Leads, Step;
    BodyLeads(data);
    DataEndLeads();
    LeadsSilent(s, data, s1, Bodies(data), [CR], s2);
    LeadsThen(s, data + [CR], s2, Bodies(data), [LF], State(SizeStart, 0, 0, Ok), [ChunkComplete]);
  }

  lemma ChunkLeads(s: State, c: Chunk)
    requires AtChunk(s) && ChunkOk(c)
    ensures Leads(s, Line(c), State(SizeStart, 0, 0, Ok), [ChunkHeader(|c.data|)] + Bodies(c.data) + [ChunkComplete])
  {
    SizeLineLeads(s, c.size);
    DataLeads(c.data);
    hide Leads, Bodies;
    LeadsThen(s, SizeBytes(c.size) + [CR] + [LF], State(Data, |c.data|, 0, Ok), [ChunkHeader(|c.data|)],
              c.data + [CR] + [LF], State(SizeStart, 0, 0, Ok), Bodies(c.data) + [ChunkComplete]);
    assert [ChunkHeader(|c.data|)] + (Bodies(c.data) + [ChunkComplete])
        == [ChunkHeader(|c.data|)] + Bodies(c.data) + [ChunkComplete];
  }

  lemma EndLeads(s: State, zero: SizeText)
    requires AtChunk(s) && ZeroOk(zero)
    ensures Leads(s, SizeBytes(zero) + [CR] + [LF] + ([CR] + [LF]), State(Complete, 0, 2, Ok),
                  [ChunkHeader(0)] + [ChunkComplete, MessageComplete])
  {
    SizeLineLeads(s, zero);
    var s1, s2 := State(TrailerStart, 0, 0, Ok), State(TrailerAlmost, 0, 1, Ok);
    LeadsByte(s1, CR);
    LeadsByte(s2, LF);
    hide Leads;
    var done := State(Complete, 0, 2, Ok);
    LeadsThen(s1, [CR], s2, [], [LF], done, [ChunkComplete, MessageComplete]);
    assert [] + [ChunkComplete, MessageComplete] == [ChunkComplete, MessageComplete];
    LeadsThen(s, SizeBytes(zero) + [CR] + [LF], s1, [ChunkHeader(0)], [CR] + [LF], done,
              [ChunkComplete, MessageComplete]);
  }

  lemma {:induction false} StreamLeads(s: State, cs: seq<Chunk>, zero: SizeText)
    requires AtChunk(s) && ZeroOk(zero) && forall i :: 0 <= i < |cs| ==> ChunkOk(cs[i])
    ensures Leads(s, Stream(cs, zero), State(Complete, 0, 2, Ok), Story(cs))
    decreases |cs|
  {
    hide Leads, Bodies, ChunkOk, ZeroOk, Line;
    if cs == [] {
      EndLeads(s, zero);
    } else {
      ChunkLeads(s, cs[0]);
      var s1 := State(SizeStart, 0, 0, Ok);
      StreamLeads(s1, cs[1..], zero);
      LeadsThen(s, Line(cs[0]), s1, [ChunkHeader(|cs[0].data|)] + Bodies(cs[0].data) + [ChunkComplete],
                Stream(cs[1..], zero), State(Complete, 0, 2, Ok), Story(cs[1..]));
    }
  }

  // ---------- cuts ----------

  /** The body bytes among the events. */
  function BodyOf(ev: seq<Event>): seq<Byte>
  {
    if ev == [] then [] else (if ev[0].Body? then [ev[0].b] else []) + BodyOf(ev[1..])
  }

  function Completions(ev: seq<Event>): nat
  {
    if ev == [] then 0 else (if ev[0] == MessageComplete then 1 else 0) + Completions(ev[1..])
  }

  lemma {:induction false} EventsAppend(a: seq<Event>, b: seq<Event>)
    ensures BodyOf(a + b) == BodyOf(a) + BodyOf(b) && Completions(a + b) == Completions(a) + Completions(b)
    decreases |a|
  {
    if a == [] {
      assert a + b == b;
    } else {
      EventsAppend(a[1..], b);
      assert (a + b)[0] == a[0] && (a + b)[1..] == a[1..] + b;
      var first := if a[0].Body? then [a[0].b] else [];
      assert first + (BodyOf(a[1..]) + BodyOf(b)) == (first + BodyOf(a[1..])) + BodyOf(b);
    }
  }

  lemma {:induction false} BodiesTold(bs: seq<Byte>)
    ensures BodyOf(Bodies(bs)) == bs && Completions(Bodies(bs)) == 0
    decreases |bs|
  {
    if bs != [] {
      BodiesTold(bs[1..]);
      assert Bodies(bs)[1..] == Bodies(bs[1..]);
    }
  }

  lemma OneEvent(e: Event)
    ensures BodyOf([e]) == (if e.Body? then [e.b] else []) && Completions([e]) == if e == MessageComplete then 1 else 0
  {
    assert [e][1..] == [];
  }

  lemma {:induction false} StoryTold(cs: seq<Chunk>)
    ensures BodyOf(Story(cs)) == Payload(cs) && Completions(Story(cs)) == 1
    decreases |cs|
  {
    hide Bodies, BodyOf, Completions;
    OneEvent(ChunkComplete);
    if cs == [] {
      OneEvent(ChunkHeader(0));
      OneEvent(MessageComplete);
      EventsAppend([ChunkComplete], [MessageComplete]);
      assert [ChunkComplete] + [MessageComplete] == [ChunkComplete, MessageComplete];
      EventsAppend([ChunkHeader(0)], [ChunkComplete, MessageComplete]);
    } else {
      StoryTold(cs[1..]);
      StoryHeadTold(cs[0]);
      EventsAppend([ChunkHeader(|cs[0].data|)] + Bodies(cs[0].data) + [ChunkComplete], Story(cs[1..]));
    }
  }

  lemma StoryHeadTold(c: Chunk)
    ensures var ev := [ChunkHeader(|c.data|)] + Bodies(c.data) + [ChunkComplete];
            BodyOf(ev) == c.data && Completions(ev) == 0
  {
    hide Bodies, BodyOf, Completions;
    OneEvent(ChunkHeader(|c.data|));
    OneEvent(ChunkComplete);
    BodiesTold(c.data);
    EventsAppend([ChunkHeader(|c.data|)], Bodies(c.data));
    EventsAppend([ChunkHeader(|c.data|)] + Bodies(c.data), [ChunkComplete]);
  }

  lemma {:induction false} StoryEnds(cs: seq<Chunk>)
    ensures Story(cs) != [] && Story(cs)[|Story(cs)| - 1] == MessageComplete
    decreases |cs|
  {
    if cs != [] {
      StoryEnds(cs[1..]);
    }
  }

  /** A call for each buffer, as long as nothing fails; whether each call took its buffer whole. */
  function FeedAll(s: State, bufs: seq<seq<Byte>>): (r: (State, seq<Event>, bool))
    requires Sound(s)
    ensures Sound(r.0)
    decreases |bufs|
  {
    if bufs == [] || s.errno != Ok then (s, [], true)
    else
      var (s1, ev, n) := OneCall(s, bufs[0]);
      var (s2, more, whole) := FeedAll(s1, bufs[1..]);
      (s2, ev + more, n == |bufs[0]| && whole)
  }

  /** No call is made without bytes before all bytes have come. */
  predicate EmptyOnlyBehind(bufs: seq<seq<Byte>>)
  {
    bufs == [] || ((bufs[0] == [] ==> Joined(bufs) == []) && EmptyOnlyBehind(bufs[1..]))
  }

  /** From a body of unknown length a stretch leads nowhere else. */
  lemma EofStays(s: State, bs: seq<Byte>)
    requires Sound(s) && s.errno == Ok && s.phase == IdentityEof
    ensures Feed(s, bs) == (s, Bodies(bs), |bs|)
  {
    if bs != [] {
      FeedBody(s, bs, |bs|);
      assert bs[..|bs|] == bs && bs[|bs|..] == [];
      FeedNone(s, []);
      assert Bodies(bs) + [] + [] == Bodies(bs);
    } else {
      FeedNone(s, bs);
    }
  }

  /** Inside a message the parser is neither behind it nor in a body of unknown length. */
  lemma InsideMessage(s: State, bs: seq<Byte>, s': State, ev: seq<Event>)
    requires Leads(s, bs, s', ev) && s.errno == Ok && bs != [] && s'.phase == Complete
    ensures s.phase != Complete && s.phase != IdentityEof
  {
    if s.phase == Complete {
      FeedNone(s, bs);
    }
    if s.phase == IdentityEof {
      EofStays(s, bs);
    }
  }

  /** A stretch of bytes in calls of their own, none of them empty: the same state and events. */
  lemma {:induction false} CutsDoNotMatter(s: State, bufs: seq<seq<Byte>>, s': State, ev: seq<Event>)
    requires Leads(s, Joined(bufs), s', ev) && s.errno == Ok && forall i :: 0 <= i < |bufs| ==> bufs[i] != []
    ensures FeedAll(s, bufs) == (s', ev, true)
    decreases |bufs|
  {
    if bufs == [] {
      FeedNone(s, []);
    } else {
      var rest := Joined(bufs[1..]);
      var s1, ev1 := OneCut(s, bufs[0], rest, s', ev);
      assert forall i :: 0 <= i < |bufs[1..]| ==> bufs[1..][i] == bufs[i + 1];
      CutsDoNotMatter(s1, bufs[1..], s', ev[|ev1|..]);
    }
  }

  /** The first buffer of a stretch, and the rest. */
  lemma OneCut(s: State, a: seq<Byte>, b: seq<Byte>, s': State, ev: seq<Event>) returns (s1: State, ev1: seq<Event>)
    requires Leads(s, a + b, s', ev) && s.errno == Ok
    ensures Feed(s, a) == (s1, ev1, |a|) && s1.errno == Ok
    ensures ev1 <= ev && Leads(s1, b, s', ev[|ev1|..]) && ev1 + ev[|ev1|..] == ev
  {
    FeedAppend(s, a, b);
    s1, ev1 := Feed(s, a).0, Feed(s, a).1;
    assert Feed(s, a).2 + Feed(s1, b).2 == |a| + |b|;
    assert ev[|ev1|..] == Feed(s1, b).1;
  }

  /** A whole message in calls: as in one stretch exactly when no call without bytes comes before its end;
      such a call is an error. */
  lemma {:induction false} CutsExact(s: State, bufs: seq<seq<Byte>>, s': State, ev: seq<Event>)
    requires Leads(s, Joined(bufs), s', ev) && s.errno == Ok && s'.phase == Complete
    ensures if EmptyOnlyBehind(bufs) then FeedAll(s, bufs) == (s', ev, true)
            else FeedAll(s, bufs).0.errno == InvalidEof && !FeedAll(s, bufs).2
    decreases |bufs|
  {
    if bufs == [] {
      FeedNone(s, []);
    } else if bufs[0] == [] {
      assert Joined(bufs) == Joined(bufs[1..]);
      if Joined(bufs) == [] {
        FeedNone(s, []);
        CutsExact(s, bufs[1..], s', ev);
        AllEmpty(bufs);
        assert [] + ev == ev;
      } else {
        InsideMessage(s, Joined(bufs), s', ev);
      }
    } else {
      var s1, ev1 := OneCut(s, bufs[0], Joined(bufs[1..]), s', ev);
      CutsExact(s1, bufs[1..], s', ev[|ev1|..]);
    }
  }

  lemma {:induction false} AllEmpty(bufs: seq<seq<Byte>>)
    requires Joined(bufs) == []
    ensures EmptyOnlyBehind(bufs)
    decreases |bufs|
  {
    if bufs != [] {
      assert bufs[0] == [] && Joined(bufs[1..]) == [];
      AllEmpty(bufs[1..]);
    }
  }

  /** Chunked bodies decode the same under every cut into calls: each buffer is taken whole, the bytes of
      the body are the data of the chunks, and the message is complete once, at its end. This is so exactly
      when no call without bytes comes before the end of the body; such a call is an error. */
  lemma ChunkedDecodes(s: State, cs: seq<Chunk>, zero: SizeText, bufs: seq<seq<Byte>>)
    requires AtChunk(s) && ZeroOk(zero) && (forall i :: 0 <= i < |cs| ==> ChunkOk(cs[i]))
    requires Joined(bufs) == Stream(cs, zero)
    ensures var (s', ev, whole) := FeedAll(s, bufs);
            if EmptyOnlyBehind(bufs) then
              && s'.phase == Complete && s'.errno == Ok && whole
              && BodyOf(ev) == Payload(cs) && Completions(ev) == 1 && ev != [] && ev[|ev| - 1] == MessageComplete
            else s'.errno == InvalidEof && !whole
  {
    StreamLeads(s, cs, zero);
    CutsExact(s, bufs, State(Complete, 0, 2, Ok), Story(cs));
    StoryTold(cs);
    StoryEnds(cs);
  }

  /** So do bodies of a given length. */
  lemma IdentityDecodes(body: seq<Byte>, bufs: seq<seq<Byte>>)
    requires 0 < |body| < ULLONG_MAX && Joined(bufs) == body
    ensures var s := State(Identity, |body|, 0, Ok);
            if EmptyOnlyBehind(bufs) then
              FeedAll(s, bufs) == (State(Complete, 0, 0, Ok), Bodies(body) + [MessageComplete], true)
            else FeedAll(s, bufs).0.errno == InvalidEof && !FeedAll(s, bufs).2
  {
    var s := State(Identity, |body|, 0, Ok);
    FeedBody(s, body, |body|);
    assert body[..|body|] == body && body[|body|..] == [];
    FeedNone(State(Complete, 0, 0, Ok), []);
    var ev := Bodies(body) + [MessageComplete];
    assert ev + [] == ev;
    CutsExact(s, bufs, State(Complete, 0, 0, Ok), ev);
  }

  /** A body of unknown length ends with the connection, that is with a call without bytes. */
  lemma {:induction false} UntilCloseDecodes(s: State, bufs: seq<seq<Byte>>)
    requires Sound(s) && s.errno == Ok && s.phase == IdentityEof && forall i :: 0 <= i < |bufs| ==> bufs[i] != []
    ensures FeedAll(s, bufs + [[]]) == (s, Bodies(Joined(bufs)) + [MessageComplete], true)
    decreases |bufs|
  {
    var all := bufs + [[]];
    if bufs == [] {
      assert all == [[]] && all[1..] == [];
      assert FeedAll(s, all[1..]) == (s, [], true);
      assert Bodies(Joined(bufs)) + [MessageComplete] == [MessageComplete] + [] == [MessageComplete];
    } else {
      assert all[0] == bufs[0] && all[1..] == bufs[1..] + [[]];
      assert forall i :: 0 <= i < |bufs[1..]| ==> bufs[1..][i] == bufs[i + 1];
      UntilCloseDecodes(s, bufs[1..]);
      EofStays(s, bufs[0]);
      BodiesAppend(bufs[0], Joined(bufs[1..]));
      var a, b := Bodies(bufs[0]), Bodies(Joined(bufs[1..]));
      assert a + (b + [MessageComplete]) == (a + b) + [MessageComplete];
    }
  }
}
