/** What the chunked states of app/st_wrk/http_parser.c accept: nothing but the chunked bodies that HttpDecode
    shows they decode. */
module HttpAccept {
  import opened Bytes
  import opened HttpBody
  import opened HttpDecode

  /** How far a chunked body has come: its whole chunks, and the size line and the data of the next. */
  datatype Progress = Progress(cs: seq<Chunk>, size: SizeText, data: seq<Byte>)

  /** The chunks one behind the other. */
  function Chunks(cs: seq<Chunk>): seq<Byte>
  {
    if cs == [] then [] else Line(cs[0]) + Chunks(cs[1..])
  }

  /** A number as far as it has been read. */
  ghost predicate Digits(d: seq<Byte>, v: nat)
  {
    d != [] && IsHex(d) && HexValue(d) == v < 0xffff_ffff_ffff_fff0
  }

  /** The bytes bs brought the parser from the start of a body to s. */
  ghost predicate At(s: State, p: Progress, bs: seq<Byte>)
  {
    && s.errno == Ok && (forall i :: 0 <= i < |p.cs| ==> ChunkOk(p.cs[i]))
    && var t := p.size;
       var line := Chunks(p.cs) + SizeBytes(t);
       match s.phase
       case SizeStart => bs == Chunks(p.cs) && p.data == [] && s.nread == 0
       case Size => bs == line && t.ext == [] && Digits(t.digits, s.length) && s.nread == |SizeBytes(t)| && p.data == []
       case Params =>
         && bs == line && t.ext != [] && ExtOk(t.ext) && Digits(t.digits, s.length) && s.nread == |SizeBytes(t)|
         && p.data == []
       case SizeAlmost =>
         && bs == line + [CR] && ExtOk(t.ext) && Digits(t.digits, s.length) && s.nread == |SizeBytes(t)| + 1
         && p.data == []
       case Data =>
         && SizeOk(t) && bs == line + [CR] + [LF] + p.data && |p.data| + s.length == HexValue(t.digits)
         && s.length > 0
       case DataAlmost => DataRead(p) && bs == line + [CR] + [LF] + p.data
       case DataDone => DataRead(p) && bs == line + [CR] + [LF] + (p.data + [CR])
       case TrailerStart => LastRead(p) && bs == line + [CR] + [LF]
       case TrailerAlmost => LastRead(p) && bs == line + [CR] + [LF] + [CR]
       case Complete => LastRead(p) && (bs == line + [CR] + [LF] + ([CR] + [LF]) || bs == line + [CR] + [LF] + [LF])
       case Trailers =>
         && LastRead(p) && bs != [] && bs == line + [CR] + [LF] + [bs[|bs| - 1]]
         && bs[|bs| - 1] != CR && bs[|bs| - 1] != LF
       case Identity => false
       case IdentityEof => false
  }

  /** All data of the chunk is there. */
  ghost predicate DataRead(p: Progress)
  {
    SizeOk(p.size) && p.data != [] && |p.data| == HexValue(p.size.digits)
  }

  /** The size line is that of the last chunk. */
  ghost predicate LastRead(p: Progress)
  {
    ZeroOk(p.size) && p.data == []
  }

  /** The payload so far. */
  function Got(p: Progress): seq<Byte>
  {
    Payload(p.cs) + p.data
  }

  // ---------- one byte ----------

  lemma OneMoreDigit(d: seq<Byte>, v: nat, c: Byte)
    requires Digits(d, v) && Unhex(c) != -1 && ShiftHex(v, Unhex(c)) != -1
    ensures Digits(d + [c], ShiftHex(v, Unhex(c)))
  {
    hide Unhex;
    assert (d + [c])[..|d|] == d;
  }

  lemma FirstOne(c: Byte)
    requires Unhex(c) != -1
    ensures Digits([c], Unhex(c))
  {
    assert [c][..0] == [];
    assert HexValue([c][..0]) == 0;
  }

  lemma SizeByte(s: State, p: Progress, bs: seq<Byte>, c: Byte) returns (p': Progress)
    requires Sound(s) && At(s, p, bs) && (s.phase == SizeStart || s.phase == Size || s.phase == Params)
    requires Step(s, c).0.errno == Ok
    ensures Step(s, c).1 == [] && At(Step(s, c).0, p', bs + [c]) && p'.cs == p.cs && p'.data == p.data
  {
    hide Unhex, ChunkOk, Chunks, HexValue, Digits, Payload;
    var t := p.size;
    if s.phase == SizeStart {
      FirstOne(c);
      p' := p.(size := SizeText([c], []));
      assert bs + [c] == Chunks(p.cs) + SizeBytes(p'.size);
    } else if c == CR {
      p' := p;
    } else if s.phase == Size && Unhex(c) != -1 {
      OneMoreDigit(t.digits, s.length, c);
      p' := p.(size := SizeText(t.digits + [c], []));
      assert bs + [c] == Chunks(p.cs) + SizeBytes(p'.size);
    } else {
      p' := p.(size := t.(ext := t.ext + [c]));
      assert bs + [c] == Chunks(p.cs) + SizeBytes(p'.size);
    }
  }

  lemma LineByte(s: State, p: Progress, bs: seq<Byte>, c: Byte)
    requires Sound(s) && At(s, p, bs) && s.phase == SizeAlmost && Step(s, c).0.errno == Ok
    ensures Step(s, c).1 == [ChunkHeader(s.length)] && At(Step(s, c).0, p, bs + [c])
  {
    hide Unhex, ChunkOk, Chunks, HexValue;
    assert Chunks(p.cs) + SizeBytes(p.size) + [CR] + [LF] + p.data == Chunks(p.cs) + SizeBytes(p.size) + [CR] + [LF];
  }

  lemma DataByte(s: State, p: Progress, bs: seq<Byte>, c: Byte) returns (p': Progress)
    requires Sound(s) && At(s, p, bs) && s.phase == Data && Step(s, c).0.errno == Ok
    ensures Step(s, c).1 == [Body(c)] && At(Step(s, c).0, p', bs + [c])
    ensures p'.cs == p.cs && p'.data == p.data + [c]
  {
    hide Unhex, ChunkOk, Chunks, HexValue, SizeOk;
    p' := p.(data := p.data + [c]);
    var head := Chunks(p.cs) + SizeBytes(p.size) + [CR] + [LF];
    assert head + p.data + [c] == head + (p.data + [c]);
  }

  lemma ChunkByte(s: State, p: Progress, bs: seq<Byte>, c: Byte) returns (p': Progress)
    requires Sound(s) && At(s, p, bs) && (s.phase == DataAlmost || s.phase == DataDone) && Step(s, c).0.errno == Ok
    ensures BodyOf(Step(s, c).1) == [] && At(Step(s, c).0, p', bs + [c]) && Got(p') == Got(p)
  {
    hide Unhex, Chunks, HexValue, SizeOk, BodyOf, Payload;
    var head := Chunks(p.cs) + SizeBytes(p.size) + [CR] + [LF];
    if s.phase == DataAlmost {
      p' := p;
      assert head + p.data + [c] == head + (p.data + [c]);
      NoBody();
    } else {
      var chunk := Chunk(p.size, p.data);
      p' := Progress(p.cs + [chunk], p.size, []);
      OneMoreChunk(p.cs, chunk);
      assert head + (p.data + [CR]) + [LF] == Chunks(p.cs) + Line(chunk);
      NoBody();
    }
  }

  lemma NoBody()
    ensures BodyOf([]) == [] && BodyOf([ChunkComplete]) == [] && BodyOf([ChunkComplete, MessageComplete]) == []
    ensures forall n: nat :: BodyOf([ChunkHeader(n)]) == []
  {
    assert [ChunkComplete][1..] == [];
    assert [ChunkComplete, MessageComplete][1..] == [MessageComplete] && [MessageComplete][1..] == [];
    forall n: nat
      ensures BodyOf([ChunkHeader(n)]) == []
    {
      assert [ChunkHeader(n)][1..] == [];
    }
  }

  lemma {:induction false} OneMoreChunk(cs: seq<Chunk>, c: Chunk)
    ensures Chunks(cs + [c]) == Chunks(cs) + Line(c) && Payload(cs + [c]) == Payload(cs) + c.data
    decreases |cs|
  {
    hide Line;
    if cs == [] {
      assert [c][1..] == [] && [] + [c] == [c];
      assert Line(c) + [] == Line(c) && c.data + [] == c.data;
    } else {
      OneMoreChunk(cs[1..], c);
      assert (cs + [c])[0] == cs[0] && (cs + [c])[1..] == cs[1..] + [c];
      assert Line(cs[0]) + (Chunks(cs[1..]) + Line(c)) == (Line(cs[0]) + Chunks(cs[1..])) + Line(c);
      assert cs[0].data + (Payload(cs[1..]) + c.data) == (cs[0].data + Payload(cs[1..])) + c.data;
    }
  }

  lemma EndByte(s: State, p: Progress, bs: seq<Byte>, c: Byte)
    requires Sound(s) && At(s, p, bs) && (s.phase == TrailerStart || s.phase == TrailerAlmost)
    requires Step(s, c).0.errno == Ok
    ensures BodyOf(Step(s, c).1) == [] && At(Step(s, c).0, p, bs + [c])
  {
    hide Unhex, ChunkOk, Chunks, BodyOf, LastRead;
    NoBody();
    var head := Chunks(p.cs) + SizeBytes(p.size) + [CR] + [LF];
    assert head + [CR] + [LF] == head + ([CR] + [LF]);
  }

  /** Any byte the parser takes keeps the account. */
  lemma TakenByte(s: State, p: Progress, bs: seq<Byte>, c: Byte) returns (p': Progress)
    requires Sound(s) && At(s, p, bs) && !Stopped(s) && Step(s, c).0.errno == Ok
    ensures At(Step(s, c).0, p', bs + [c]) && Got(p') == Got(p) + BodyOf(Step(s, c).1)
  {
    hide Step, Payload, BodyOf;
    NoBody();
    if s.phase == SizeStart || s.phase == Size || s.phase == Params {
      p' := SizeByte(s, p, bs, c);
    } else if s.phase == SizeAlmost {
      LineByte(s, p, bs, c);
      p' := p;
    } else if s.phase == Data {
      p' := DataByte(s, p, bs, c);
      OneEvent(Body(c));
      assert Payload(p.cs) + (p.data + [c]) == Got(p) + [c];
    } else if s.phase == DataAlmost || s.phase == DataDone {
      p' := ChunkByte(s, p, bs, c);
    } else {
      NotIdentity(s, p, bs);
      EndByte(s, p, bs, c);
      p' := p;
    }
    hide At;
    assert Got(p) + [] == Got(p);
  }

  lemma NotIdentity(s: State, p: Progress, bs: seq<Byte>)
    requires At(s, p, bs)
    ensures s.phase != Identity && s.phase != IdentityEof
  {
  }

  // ---------- a stretch of bytes ----------

  lemma {:induction false} Taken(s: State, p: Progress, bs: seq<Byte>, more: seq<Byte>) returns (p': Progress)
    requires Sound(s) && At(s, p, bs) && Feed(s, more).0.errno == Ok
    ensures var (s', ev, n) := Feed(s, more);
            At(s', p', bs + more[..n]) && Got(p') == Got(p) + BodyOf(ev)
    decreases |more|
  {
    hide Step, Feed, At, Got, BodyOf;
    NoBody();
    if more == [] || Stopped(s) {
      FeedNone(s, more);
      p' := p;
      assert bs + more[..0] == bs && Got(p) + [] == Got(p);
    } else {
      FeedHead(s, more);
      StillOk(s, p, bs, more);
      var (s1, ev) := Step(s, more[0]);
      var p1 := TakenByte(s, p, bs, more[0]);
      p' := Taken(s1, p1, bs + [more[0]], more[1..]);
      var (s2, ev2, n) := Feed(s1, more[1..]);
      EventsAppend(ev, ev2);
      assert bs + [more[0]] + more[1..][..n] == bs + more[..n + 1];
      assert Got(p) + BodyOf(ev) + BodyOf(ev2) == Got(p) + (BodyOf(ev) + BodyOf(ev2));
    }
  }

  lemma StillOk(s: State, p: Progress, bs: seq<Byte>, more: seq<Byte>)
    requires Sound(s) && more != [] && !Stopped(s) && Feed(s, more).0.errno == Ok
    ensures Step(s, more[0]).0.errno == Ok
  {
    FeedHead(s, more);
  }

  lemma {:induction false} StreamIs(cs: seq<Chunk>, zero: SizeText)
    ensures Stream(cs, zero) == Chunks(cs) + SizeBytes(zero) + [CR] + [LF] + ([CR] + [LF])
    decreases |cs|
  {
    hide Line, SizeBytes;
    if cs != [] {
      StreamIs(cs[1..], zero);
      var end := SizeBytes(zero) + [CR] + [LF] + ([CR] + [LF]);
      assert Line(cs[0]) + (Chunks(cs[1..]) + SizeBytes(zero) + [CR] + [LF] + ([CR] + [LF])) == Chunks(cs) + end;
      assert Chunks(cs) + end == Chunks(cs) + SizeBytes(zero) + [CR] + [LF] + ([CR] + [LF]);
    } else {
      assert [] + SizeBytes(zero) == SizeBytes(zero);
    }
  }

  /** The converse of decoding. Whatever the parser takes as the whole of a chunked body is one: chunks of the size
      their lines give, a last chunk, and an empty line, whose CR may be missing; and what it has told as the body
      is their data. */
  lemma OnlyChunksComplete(s: State, bs: seq<Byte>) returns (cs: seq<Chunk>, zero: SizeText)
    requires AtChunk(s) && Feed(s, bs).0.errno == Ok && Feed(s, bs).0.phase == Complete
    ensures ZeroOk(zero) && forall i :: 0 <= i < |cs| ==> ChunkOk(cs[i])
    ensures |Stream(cs, zero)| >= 2
    ensures var (s', ev, n) := Feed(s, bs);
            var all := Stream(cs, zero);
            && (bs[..n] == all || bs[..n] == all[..|all| - 2] + [LF])
            && BodyOf(ev) == Payload(cs)
  {
    hide Feed, BodyOf, ChunkOk, HexValue, ZeroOk, SizeBytes, Stream;
    var start := Progress([], SizeText([], []), []);
    var p := Taken(s, start, [], bs);
    cs, zero := p.cs, p.size;
    StreamIs(cs, zero);
    var n := Feed(s, bs).2;
    assert [] + bs[..n] == bs[..n];
    assert Got(start) + BodyOf(Feed(s, bs).1) == BodyOf(Feed(s, bs).1);
    assert Payload(cs) + [] == Payload(cs);
  }
}
