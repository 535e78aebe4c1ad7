/** URLs put together from their parts, and the splitter giving exactly the parts back. */
module UrlCompose {
  import opened Bytes
  import opened Queues
  import opened UrlModel

  /** A registered name or IPv4 address, or an IPv6 address with or without a zone (RFC 6874). */
  datatype Name = Plain(name: seq<Byte>) | Literal(addr: seq<Byte>, zone: Option<seq<Byte>>)

  ghost predicate NameOk(h: Name)
  {
    match h
    case Plain(name) => name != [] && forall c :: c in name ==> HostChar(c)
    case Literal(addr, zone) =>
      && addr != [] && (forall c :: c in addr ==> V6Char(c))
      && (zone.Some? ==> zone.value != [] && forall c :: c in zone.value ==> ZoneChar(c))
  }

  predicate V6Char(c: Byte) { IsHexDigit(c) || c == 58 || c == 46 }

  /** The host without the brackets of a literal. */
  function NameText(h: Name): seq<Byte>
  {
    match h
    case Plain(name) => name
    case Literal(addr, zone) => addr + Optional([37], zone)
  }

  function NameWire(h: Name): seq<Byte>
  {
    if h.Plain? then NameText(h) else [91] + NameText(h) + [93]
  }

  /** The parts of an absolute URL. */
  datatype Parts = Parts(
    scheme: seq<Byte>, user: Option<seq<Byte>>, host: Name, port: Option<seq<Byte>>,
    path: seq<Byte>, query: Option<seq<Byte>>, fragment: Option<seq<Byte>>)

  ghost predicate PartsOk(u: Parts)
  {
    && u.scheme != [] && (forall c :: c in u.scheme ==> Alpha(c))
    && (u.user.Some? ==> u.user.value != [] && forall c :: c in u.user.value ==> UserinfoChar(c))
    && NameOk(u.host)
    && (u.port.Some? ==> u.port.value != [] && AllDigits(u.port.value) && DigitValue(u.port.value) <= 0xffff)
    && (u.path != [] ==> u.path[0] == 47) && (forall c :: c in u.path ==> UrlChar(c))
    && (u.query.Some? ==> u.query.value != [] && forall c :: c in u.query.value ==> UrlChar(c) || c == 63)
    && (u.fragment.Some? ==>
         && u.fragment.value != [] && u.fragment.value[0] != 35
         && forall c :: c in u.fragment.value ==> UrlChar(c) || c == 63 || c == 35)
    && |Compose(u)| <= MAX_BUFFER
  }

  function Optional(mark: seq<Byte>, part: Option<seq<Byte>>): seq<Byte>
  {
    if part.Some? then mark + part.value else []
  }

  function Authority(u: Parts): seq<Byte>
  {
    (if u.user.Some? then u.user.value + [64] else []) + NameWire(u.host)
    + (if u.port.Some? then [58] + u.port.value else [])
  }

  function Compose(u: Parts): seq<Byte>
  {
    u.scheme + [58, 47, 47] + Authority(u) + u.path
    + (if u.query.Some? then [63] + u.query.value else [])
    + (if u.fragment.Some? then [35] + u.fragment.value else [])
  }

  // ---------- scanning stretches ----------

  /** The scan of all of a. */
  function Scanned(a: seq<Byte>): Scan
  {
    ScanTo(a, |a|, false)
  }

  lemma {:induction false} ScanPrefix(a: seq<Byte>, b: seq<Byte>, n: nat)
    requires n <= |a|
    ensures ScanTo(a + b, n, false) == ScanTo(a, n, false)
  {
    hide ScanChar;
    if n > 0 {
      assert (a + b)[n - 1] == a[n - 1];
      ScanPrefix(a, b, n - 1);
    }
  }

  lemma Snoc(a: seq<Byte>, c: Byte)
    ensures Scanned(a + [c]) == if Scanned(a).s == Dead then Scanned(a) else ScanChar(Scanned(a), |a|, c)
  {
    ScanPrefix(a, [c], |a|);
    hide ScanChar;
  }

  /** A delimiter changes nothing but the state. */
  lemma Delimiter(a: seq<Byte>, c: Byte, s: UrlState)
    requires Scanned(a).s != Dead && ParseUrlChar(Scanned(a).s, c) == s && FieldOf(s).None?
    ensures Scanned(a + [c]) == Scanned(a).(s := s)
  {
    Snoc(a, c);
    hide ParseUrlChar, ScanTo;
  }

  /** A stretch that stays in state s opens the field of s. */
  lemma {:induction false} Opens(a: seq<Byte>, seg: seq<Byte>, s: UrlState, f: Field)
    requires seg != [] && Scanned(a).s != Dead && FieldOf(s) == Some(f) && Scanned(a).last != Some(f)
    requires s != ServerWithAt && |a| + |seg| <= MAX_BUFFER
    requires ParseUrlChar(Scanned(a).s, seg[0]) == s && forall i :: 0 < i < |seg| ==> ParseUrlChar(s, seg[i]) == s
    ensures Scanned(a + seg) == Scanned(a).(s := s, last := Some(f), fields := Scanned(a).fields[f := Span(|a|, |seg|)])
    decreases |seg|
  {
    hide ParseUrlChar, ScanTo;
    var n := |seg| - 1;
    assert a + seg == (a + seg[..n]) + [seg[n]];
    Snoc(a + seg[..n], seg[n]);
    if n == 0 {
      assert a + seg[..n] == a;
    } else {
      Opens(a, seg[..n], s, f);
      UpdateTwice(Scanned(a).fields, f, Span(|a|, n), Span(|a|, n + 1));
    }
  }

  lemma UpdateTwice(m: map<Field, Span>, f: Field, x: Span, y: Span)
    ensures m[f := x][f := y] == m[f := y]
  {
  }

  /** A stretch that stays in state s, whose field is open, makes that field longer. */
  lemma {:induction false} Lengthens(a: seq<Byte>, seg: seq<Byte>, s: UrlState, f: Field)
    requires seg != []
    requires Scanned(a).s != Dead && FieldOf(s) == Some(f) && Scanned(a).last == Some(f) && f in Scanned(a).fields
    requires Scanned(a).fields[f].len + |seg| <= MAX_BUFFER
    requires ParseUrlChar(Scanned(a).s, seg[0]) == s && forall i :: 0 < i < |seg| ==> ParseUrlChar(s, seg[i]) == s
    ensures var k := Scanned(a);
            Scanned(a + seg)
            == k.(s := s, at := k.at || s == ServerWithAt,
                  fields := k.fields[f := Span(k.fields[f].off, k.fields[f].len + |seg|)])
    decreases |seg|
  {
    hide ParseUrlChar, ScanTo;
    var n := |seg| - 1;
    assert a + seg == (a + seg[..n]) + [seg[n]];
    Snoc(a + seg[..n], seg[n]);
    if n == 0 {
      assert a + seg[..n] == a;
    } else {
      Lengthens(a, seg[..n], s, f);
      var k := Scanned(a);
      UpdateTwice(k.fields, f, Span(k.fields[f].off, k.fields[f].len + n),
                  Span(k.fields[f].off, k.fields[f].len + n + 1));
    }
  }

  // ---------- the host part ----------

  /** A stretch of the host part that leads to one state. */
  lemma {:induction false} HostStretch(buf: seq<Byte>, part: Span, at: bool, n: nat, m: nat, s: HostState)
    requires part.off <= n < m <= |buf| && m <= MAX_BUFFER && (s == Userinfo || s == Host || s == V6 || s == Port)
    requires var h := HostTo(buf, part, at, n);
               h.s != HostDead && h.s != s && (s == Host || s == V6 ==> h.host.len == 0)
    requires ParseHostChar(HostTo(buf, part, at, n).s, buf[n]) == s
    requires forall i :: n < i < m ==> ParseHostChar(s, buf[i]) == s
    ensures var h := HostTo(buf, part, at, n);
            HostTo(buf, part, at, m)
            == if s == Userinfo then h.(s := s, user := Some(Span(n, m - n)))
               else if s == Port then h.(s := s, port := Some(Span(n, m - n)))
               else h.(s := s, host := Span(n, m - n))
    decreases m
  {
    hide ParseHostChar, HostTo;
    if m > n + 1 {
      HostStretch(buf, part, at, n, m - 1, s);
    }
    HostSnoc(buf, part, at, m);
  }

  lemma HostSnoc(buf: seq<Byte>, part: Span, at: bool, m: nat)
    requires part.off < m <= |buf| && HostTo(buf, part, at, m - 1).s != HostDead
    ensures HostTo(buf, part, at, m)
         == HostAdvance(HostTo(buf, part, at, m - 1), m - 1, ParseHostChar(HostTo(buf, part, at, m - 1).s, buf[m - 1]))
  {
    hide ParseHostChar, HostAdvance;
  }

  /** A zone makes the host longer. */
  lemma {:induction false} ZoneStretch(buf: seq<Byte>, part: Span, at: bool, n: nat, m: nat)
    requires part.off <= n < m <= |buf| && HostTo(buf, part, at, n).s == ZoneStart
    requires HostTo(buf, part, at, n).host.len + (m - n) <= MAX_BUFFER
    requires forall i :: n <= i < m ==> ZoneChar(buf[i])
    ensures var h := HostTo(buf, part, at, n);
            HostTo(buf, part, at, m) == h.(s := Zone, host := Span(h.host.off, h.host.len + (m - n)))
    decreases m
  {
    hide ParseHostChar, HostTo, ZoneChar;
    ZoneStays(buf[m - 1]);
    if m > n + 1 {
      ZoneStretch(buf, part, at, n, m - 1);
    }
    HostSnoc(buf, part, at, m);
  }

  lemma ZoneStays(c: Byte)
    ensures ZoneChar(c) ==> ParseHostChar(ZoneStart, c) == Zone && ParseHostChar(Zone, c) == Zone
  {
  }

  // ---------- the parts one after the other ----------

  function UpToServer(u: Parts): seq<Byte> { u.scheme + [58, 47, 47] }

  function UpToHost(u: Parts): seq<Byte> { UpToServer(u) + (if u.user.Some? then u.user.value + [64] else []) }

  function UpToPort(u: Parts): seq<Byte> { UpToHost(u) + NameWire(u.host) }

  function UpToPath(u: Parts): seq<Byte> { UpToPort(u) + Optional([58], u.port) }

  function UpToQuery(u: Parts): seq<Byte> { UpToPath(u) + u.path }

  function UpToFragment(u: Parts): seq<Byte> { UpToQuery(u) + Optional([63], u.query) }

  /** Where the parts lie. */
  function HostPart(u: Parts): Span
  {
    Span(|UpToServer(u)|, |UpToPath(u)| - |UpToServer(u)|)
  }

  /** Everything fits 16 bits. */
  lemma Sizes(u: Parts)
    requires PartsOk(u)
    ensures |UpToServer(u)| <= |UpToHost(u)| <= |UpToPort(u)| <= |UpToPath(u)| <= |UpToQuery(u)| <= |UpToFragment(u)|
    ensures |UpToFragment(u)| <= |Compose(u)| <= MAX_BUFFER
    ensures |u.scheme| + 3 == |UpToServer(u)|
  {
    Lengths(u);
    hide UpToHost, UpToPort, UpToPath, UpToQuery, UpToFragment, Compose;
  }

  lemma SchemeOpened(u: Parts)
    requires PartsOk(u)
    ensures Scanned(u.scheme) == Scan(Schema, map[UfSchema := Span(0, |u.scheme|)], Some(UfSchema), false)
  {
    assert [] + u.scheme == u.scheme;
    assert Scanned([]) == Start(false);
    forall i | 0 <= i < |u.scheme|
      ensures ParseUrlChar(SpacesBeforeUrl, u.scheme[i]) == Schema && ParseUrlChar(Schema, u.scheme[i]) == Schema
    {
      assert u.scheme[i] in u.scheme;
    }
    Sizes(u);
    hide ParseUrlChar, ScanTo, Scanned, Alpha;
    Opens([], u.scheme, Schema, UfSchema);
    OneField(u.scheme);
  }

  lemma OneField(a: seq<Byte>)
    ensures map[][UfSchema := Span(0, |a|)] == map[UfSchema := Span(0, |a|)]
  {
  }

  lemma SchemeScanned(u: Parts)
    requires PartsOk(u)
    ensures Scanned(UpToServer(u)) == Scan(ServerStart, map[UfSchema := Span(0, |u.scheme|)], Some(UfSchema), false)
  {
    SchemeOpened(u);
    ColonSlashSlash();
    hide ParseUrlChar, ScanTo, PartsOk;
    Delimiter(u.scheme, 58, SchemaSlash);
    Delimiter(u.scheme + [58], 47, SchemaSlashSlash);
    Delimiter(u.scheme + [58] + [47], 47, ServerStart);
    assert u.scheme + [58] + [47] + [47] == UpToServer(u);
  }

  lemma ColonSlashSlash()
    ensures ParseUrlChar(Schema, 58) == SchemaSlash
    ensures ParseUrlChar(SchemaSlash, 47) == SchemaSlashSlash && ParseUrlChar(SchemaSlashSlash, 47) == ServerStart
  {
  }

  /** In the authority: the host field covers everything from its start. */
  ghost predicate InAuthority(u: Parts, a: seq<Byte>)
  {
    var k := Scanned(a);
    && (k.s == Server || k.s == ServerWithAt) && k.last == Some(UfHost) && k.at == u.user.Some? && |UpToServer(u)| < |a|
    && k.fields == map[UfSchema := Span(0, |u.scheme|), UfHost := Span(|UpToServer(u)|, |a| - |UpToServer(u)|)]
  }

  /** The bytes that leave the scan in the authority. */
  predicate ServerByte(c: Byte) { UserinfoChar(c) || c == 91 || c == 93 }

  lemma ServerChars(c: Byte)
    ensures HostChar(c) || V6Char(c) || ZoneChar(c) || IsDigit(c) || c == 58 ==> ServerByte(c)
    ensures UserinfoChar(c) ==> c != 64 && c != 47 && c != 63
    ensures ServerByte(c) ==> forall s :: s == Server || s == ServerWithAt || s == ServerStart ==>
              ParseUrlChar(s, c) == Server
  {
  }

  lemma StaysInServer(s: UrlState, seg: seq<Byte>)
    requires (s == Server || s == ServerWithAt || s == ServerStart) && forall c :: c in seg ==> ServerByte(c)
    ensures forall i :: 0 <= i < |seg| ==> ParseUrlChar(s, seg[i]) == Server && ParseUrlChar(Server, seg[i]) == Server
  {
    forall i | 0 <= i < |seg|
      ensures ParseUrlChar(s, seg[i]) == Server && ParseUrlChar(Server, seg[i]) == Server
    {
      ServerChars(seg[i]);
    }
  }

  /** More of the authority. */
  lemma AuthorityGrows(u: Parts, a: seq<Byte>, seg: seq<Byte>)
    requires InAuthority(u, a) && seg != [] && |a| + |seg| <= MAX_BUFFER && forall c :: c in seg ==> ServerByte(c)
    ensures InAuthority(u, a + seg) && Scanned(a + seg).s == Server
  {
    hide ParseUrlChar, Scanned, ServerByte, UpToServer;
    StaysInServer(Scanned(a).s, seg);
    Lengthens(a, seg, Server, UfHost);
    var f := Span(|UpToServer(u)|, |a| - |UpToServer(u)|);
    TwoFields(Span(0, |u.scheme|), f, Span(f.off, f.len + |seg|));
  }

  lemma TwoFields(x: Span, y: Span, z: Span)
    ensures map[UfSchema := x, UfHost := y][UfHost := z] == map[UfSchema := x, UfHost := z]
  {
  }

  /** The first stretch of the authority. */
  lemma AuthorityOpens(u: Parts, seg: seq<Byte>)
    requires PartsOk(u) && seg != [] && |UpToServer(u)| + |seg| <= MAX_BUFFER && forall c :: c in seg ==> ServerByte(c)
    ensures var k := Scanned(UpToServer(u) + seg);
            && k.s == Server && k.last == Some(UfHost) && !k.at
            && k.fields == map[UfSchema := Span(0, |u.scheme|), UfHost := Span(|UpToServer(u)|, |seg|)]
  {
    hide ParseUrlChar, Scanned, ServerByte, UpToServer, PartsOk;
    SchemeScanned(u);
    StaysInServer(ServerStart, seg);
    Opens(UpToServer(u), seg, Server, UfHost);
  }

  /** The host is made of such bytes. */
  lemma WireBytes(h: Name)
    requires NameOk(h)
    ensures NameWire(h) != [] && forall c :: c in NameWire(h) ==> ServerByte(c)
  {
    forall c | c in NameWire(h)
      ensures ServerByte(c)
    {
      ServerChars(c);
    }
  }

  lemma UserBytes(u: Parts)
    requires PartsOk(u) && u.user.Some?
    ensures u.user.value != [] && forall c :: c in u.user.value ==> ServerByte(c)
  {
  }

  lemma HostScanned(u: Parts)
    requires PartsOk(u)
    ensures InAuthority(u, UpToPort(u)) && Scanned(UpToPort(u)).s == Server
  {
    Sizes(u);
    Lengths(u);
    WireBytes(u.host);
    if u.user.Some? {
      UserBytes(u);
      UserScanned(u);
      hide ParseUrlChar, ScanTo, PartsOk, NameWire;
      AuthorityGrows(u, UpToHost(u), NameWire(u.host));
    } else {
      assert UpToHost(u) == UpToServer(u) + [] == UpToServer(u);
      AuthorityOpens(u, NameWire(u.host));
    }
  }

  lemma UserScanned(u: Parts)
    requires PartsOk(u) && u.user.Some?
    ensures InAuthority(u, UpToHost(u))
  {
    Sizes(u);
    UserBytes(u);
    var a := UpToServer(u) + u.user.value;
    assert UpToHost(u) == a + [64];
    AuthorityOpens(u, u.user.value);
    hide ScanTo, PartsOk;
    Lengthens(a, [64], ServerWithAt, UfHost);
  }

  lemma AuthorityScanned(u: Parts)
    requires PartsOk(u)
    ensures InAuthority(u, UpToPath(u)) && Scanned(UpToPath(u)).s == Server
  {
    HostScanned(u);
    Sizes(u);
    if u.port.Some? {
      var seg := [58 as Byte] + u.port.value;
      forall c | c in seg
        ensures ServerByte(c)
      {
        ServerChars(c);
      }
      AuthorityGrows(u, UpToPort(u), seg);
    } else {
      assert UpToPath(u) == UpToPort(u) + [] == UpToPort(u);
    }
  }

  // ---------- path, query and fragment ----------

  /** The scan of a: it stands in the last field, and no field of a later rank is found. */
  ghost predicate Reads(a: seq<Byte>, fields: map<Field, Span>, s: UrlState, at: bool)
  {
    Scanned(a).fields == fields && Scanned(a).s == s && Scanned(a).at == at && Scanned(a).last == FieldOf(s)
  }

  lemma PathChars(u: Parts)
    requires PartsOk(u)
    ensures forall i :: 0 < i < |u.path| ==> ParseUrlChar(Path, u.path[i]) == Path
    ensures u.path != [] ==> ParseUrlChar(Server, u.path[0]) == Path
  {
    assert forall i :: 0 <= i < |u.path| ==> u.path[i] in u.path;
  }

  lemma QueryChars(q: seq<Byte>)
    requires forall c :: c in q ==> UrlChar(c) || c == 63
    ensures forall i :: 0 <= i < |q| ==> ParseUrlChar(QueryStart, q[i]) == Query && ParseUrlChar(Query, q[i]) == Query
  {
    assert forall i :: 0 <= i < |q| ==> q[i] in q;
  }

  lemma FragmentChars(q: seq<Byte>)
    requires forall c :: c in q ==> UrlChar(c) || c == 63 || c == 35
    ensures forall i :: 0 <= i < |q| ==> ParseUrlChar(Fragment, q[i]) == Fragment
    ensures q != [] && q[0] != 35 ==> ParseUrlChar(FragmentStart, q[0]) == Fragment
  {
    assert forall i :: 0 <= i < |q| ==> q[i] in q;
  }

  /** A delimiter and a stretch behind it. */
  lemma NextField(a: seq<Byte>, mark: Byte, seg: seq<Byte>, between: UrlState, s: UrlState, f: Field)
    requires seg != [] && Scanned(a).s != Dead && Scanned(a).last != Some(f) && |a| + 1 + |seg| <= MAX_BUFFER
    requires ParseUrlChar(Scanned(a).s, mark) == between && between != Dead && FieldOf(between).None?
    requires FieldOf(s) == Some(f) && s != ServerWithAt
    requires ParseUrlChar(between, seg[0]) == s && forall i :: 0 < i < |seg| ==> ParseUrlChar(s, seg[i]) == s
    ensures Reads(a + ([mark] + seg), Scanned(a).fields[f := Span(|a| + 1, |seg|)], s, Scanned(a).at)
  {
    Delimiter(a, mark, between);
    hide ParseUrlChar, ScanTo;
    Opens(a + [mark], seg, s, f);
    assert a + [mark] + seg == a + ([mark] + seg);
  }

  function AfterPath(u: Parts): UrlState { if u.path != [] then Path else Server }

  function AfterQuery(u: Parts): UrlState { if u.query.Some? then Query else AfterPath(u) }

  function FoundPath(u: Parts): map<Field, Span>
  {
    var f := map[UfSchema := Span(0, |u.scheme|), UfHost := HostPart(u)];
    if u.path != [] then f[UfPath := Span(|UpToPath(u)|, |u.path|)] else f
  }

  function FoundQuery(u: Parts): map<Field, Span>
  {
    if u.query.Some? then FoundPath(u)[UfQuery := Span(|UpToQuery(u)| + 1, |u.query.value|)] else FoundPath(u)
  }

  /** The fields the scan finds, the host part still whole. */
  function Found(u: Parts): map<Field, Span>
  {
    if u.fragment.Some? then FoundQuery(u)[UfFragment := Span(|UpToFragment(u)| + 1, |u.fragment.value|)]
    else FoundQuery(u)
  }

  lemma PathScanned(u: Parts)
    requires PartsOk(u)
    ensures Reads(UpToQuery(u), FoundPath(u), AfterPath(u), u.user.Some?)
  {
    hide ParseUrlChar, Scanned, UpToServer, UpToPath, Compose;
    AuthorityScanned(u);
    PathChars(u);
    Sizes(u);
    Lengths(u);
    if u.path != [] {
      Opens(UpToPath(u), u.path, Path, UfPath);
    } else {
      assert UpToQuery(u) == UpToPath(u);
    }
  }

  lemma MarkChars(s: UrlState)
    ensures s == Server || s == Path ==> ParseUrlChar(s, 63) == QueryStart
    ensures s == Path || s == Query ==> ParseUrlChar(s, 35) == FragmentStart
  {
  }

  lemma QueryIsThere(u: Parts)
    requires PartsOk(u)
    ensures u.query.Some? ==> u.query.value != []
    ensures u.user.Some? ==> u.user.value != []
  {
  }

  lemma QueryAdds(u: Parts)
    requires u.query.Some?
    ensures UpToFragment(u) == UpToQuery(u) + ([63] + u.query.value)
    ensures FoundQuery(u) == FoundPath(u)[UfQuery := Span(|UpToQuery(u)| + 1, |u.query.value|)]
  {
    hide UpToQuery, FoundPath;
  }

  lemma QueryScanned(u: Parts)
    requires PartsOk(u)
    ensures Reads(UpToFragment(u), FoundQuery(u), AfterQuery(u), u.user.Some?)
  {
    hide ParseUrlChar, ScanTo, UrlChar;
    PathScanned(u);
    MarkChars(AfterPath(u));
    Sizes(u);
    Lengths(u);
    if u.query.Some? {
      QueryChars(u.query.value);
      QueryIsThere(u);
      QueryAdds(u);
      NextField(UpToQuery(u), 63, u.query.value, QueryStart, Query, UfQuery);
    } else {
      assert UpToFragment(u) == UpToQuery(u);
    }
  }

  /** A fragment behind a path or a query: the machine leaves the authority on a slash or a question mark only. */
  predicate Fits(u: Parts)
  {
    u.fragment.Some? ==> u.path != [] || u.query.Some?
  }

  lemma AllScanned(u: Parts)
    requires PartsOk(u) && Fits(u)
    ensures Reads(Compose(u), Found(u), if u.fragment.Some? then Fragment else AfterQuery(u), u.user.Some?)
  {
    hide ParseUrlChar, Scanned, FoundQuery, UpToFragment, Compose, UrlChar;
    QueryScanned(u);
    Joined(u);
    MarkChars(AfterQuery(u));
    Sizes(u);
    Lengths(u);
    if u.fragment.Some? {
      FragmentChars(u.fragment.value);
      NextField(UpToFragment(u), 35, u.fragment.value, FragmentStart, Fragment, UfFragment);
    } else {
      assert UpToFragment(u) + [] == UpToFragment(u);
    }
  }

  lemma Joined(u: Parts)
    ensures Compose(u) == UpToFragment(u) + Optional([35], u.fragment)
  {
    hide NameWire;
    var user := if u.user.Some? then u.user.value + [64] else [];
    var port := if u.port.Some? then [58] + u.port.value else [];
    assert UpToServer(u) + (user + NameWire(u.host) + port) == UpToServer(u) + user + NameWire(u.host) + port;
  }

  // ---------- the host part of the whole URL ----------

  /** The pieces of the host part, as indices into the whole URL. */
  lemma Lengths(u: Parts)
    ensures |UpToHost(u)| == |UpToServer(u)| + (if u.user.Some? then |u.user.value| + 1 else 0)
    ensures |UpToPort(u)| == |UpToHost(u)| + |NameWire(u.host)|
    ensures |UpToPath(u)| == |UpToPort(u)| + (if u.port.Some? then |u.port.value| + 1 else 0)
    ensures |UpToQuery(u)| == |UpToPath(u)| + |u.path|
    ensures |UpToFragment(u)| == |UpToQuery(u)| + (if u.query.Some? then |u.query.value| + 1 else 0)
    ensures |Compose(u)| == |UpToFragment(u)| + (if u.fragment.Some? then |u.fragment.value| + 1 else 0)
  {
    Joined(u);
  }

  lemma Peel(a: seq<Byte>, b: seq<Byte>, all: seq<Byte>)
    requires a + b <= all
    ensures a <= all
  {
    assert all[..|a|] == (a + b)[..|a|] == a;
  }

  /** Each piece of the URL starts it. */
  lemma Prefixes(u: Parts)
    ensures UpToHost(u) <= Compose(u) && UpToPort(u) <= Compose(u) && UpToPath(u) <= Compose(u)
    ensures UpToQuery(u) <= Compose(u) && UpToFragment(u) <= Compose(u)
  {
    Joined(u);
    var all := Compose(u);
    Peel(UpToFragment(u), Optional([35], u.fragment), all);
    Peel(UpToQuery(u), Optional([63], u.query), all);
    Peel(UpToPath(u), u.path, all);
    Peel(UpToPort(u), Optional([58], u.port), all);
    Peel(UpToHost(u), NameWire(u.host), all);
  }

  lemma PrefixPiece(a: seq<Byte>, b: seq<Byte>, all: seq<Byte>)
    requires a + b <= all
    ensures |a| + |b| <= |all| && all[|a|..|a| + |b|] == b && forall i :: 0 <= i < |b| ==> all[|a| + i] == b[i]
  {
    assert all[..|a| + |b|] == a + b;
    assert all[|a|..|a| + |b|] == (a + b)[|a|..];
  }

  lemma SchemePiece(u: Parts)
    ensures |u.scheme| <= |UpToHost(u)| <= |Compose(u)| && Compose(u)[0..|u.scheme|] == u.scheme
  {
    Prefixes(u);
    var t := Compose(u);
    hide Compose;
    Peel(UpToServer(u), if u.user.Some? then u.user.value + [64] else [], t);
    Peel(u.scheme, [58, 47, 47], t);
    PrefixPiece([], u.scheme, t);
  }

  lemma UserPiece(u: Parts)
    requires u.user.Some?
    ensures |UpToHost(u)| <= |Compose(u)| && |UpToHost(u)| == |UpToServer(u)| + |u.user.value| + 1
    ensures Compose(u)[|UpToServer(u)|..|UpToServer(u)| + |u.user.value|] == u.user.value
    ensures Compose(u)[|UpToHost(u)| - 1] == 64
  {
    Prefixes(u);
    var t := Compose(u);
    hide Compose, UpToServer;
    PrefixPiece(UpToServer(u), u.user.value + [64], t);
    assert UpToServer(u) + (u.user.value + [64]) == UpToServer(u) + u.user.value + [64];
    Peel(UpToServer(u) + u.user.value, [64], t);
    PrefixPiece(UpToServer(u), u.user.value, t);
  }

  /** Where the host's text begins: behind the bracket of a literal. */
  function HostAt(u: Parts): nat
  {
    |UpToHost(u)| + if u.host.Plain? then 0 else 1
  }

  lemma HostPiece(u: Parts)
    ensures HostAt(u) + |NameText(u.host)| <= |UpToPort(u)| <= |Compose(u)|
    ensures Compose(u)[HostAt(u)..HostAt(u) + |NameText(u.host)|] == NameText(u.host)
    ensures if u.host.Plain? then |UpToPort(u)| == HostAt(u) + |NameText(u.host)|
            else
              && |UpToPort(u)| == HostAt(u) + |NameText(u.host)| + 1
              && Compose(u)[HostAt(u) - 1] == 91 && Compose(u)[HostAt(u) + |NameText(u.host)|] == 93
  {
    Prefixes(u);
    var t, text := Compose(u), NameText(u.host);
    hide Compose, UpToHost, NameText;
    PrefixPiece(UpToHost(u), NameWire(u.host), t);
    if u.host.Literal? {
      assert UpToHost(u) + ([91] + text + [93]) == UpToHost(u) + [91] + text + [93];
      PrefixPiece(UpToHost(u) + [91] + text, [93], t);
      Peel(UpToHost(u) + [91] + text, [93], t);
      PrefixPiece(UpToHost(u) + [91], text, t);
    }
  }

  /** The address and the zone of a literal. */
  lemma LiteralPiece(u: Parts)
    requires u.host.Literal?
    ensures HostAt(u) + |NameText(u.host)| < |UpToPort(u)| <= |Compose(u)|
    ensures Compose(u)[HostAt(u)..HostAt(u) + |u.host.addr|] == u.host.addr
    ensures |NameText(u.host)| == |u.host.addr| + (if u.host.zone.Some? then 1 + |u.host.zone.value| else 0)
    ensures u.host.zone.Some? ==>
              && Compose(u)[HostAt(u) + |u.host.addr|] == 37
              && Compose(u)[HostAt(u) + |u.host.addr| + 1..HostAt(u) + |NameText(u.host)|] == u.host.zone.value
  {
    HostPiece(u);
    var t, n, text := Compose(u), HostAt(u), NameText(u.host);
    hide Compose, HostAt;
    var k := |u.host.addr|;
    assert text[..k] == u.host.addr;
    Part(t, n, text, 0, k);
    if u.host.zone.Some? {
      assert text[k] == 37 && text[k + 1..] == u.host.zone.value;
      Part(t, n, text, k, k + 1);
      Part(t, n, text, k + 1, |text|);
    }
  }

  lemma Part(t: seq<Byte>, n: nat, text: seq<Byte>, i: nat, j: nat)
    requires n + |text| <= |t| && t[n..n + |text|] == text && i <= j <= |text|
    ensures t[n + i..n + j] == text[i..j] && (i < j ==> t[n + i] == text[i])
  {
    forall x | i <= x < j
      ensures t[n + x] == text[x]
    {
      assert t[n..n + |text|][x] == t[n + x];
    }
  }

  lemma PortPiece(u: Parts)
    requires u.port.Some?
    ensures |UpToPort(u)| < |UpToPath(u)| <= |Compose(u)| && |UpToPath(u)| == |UpToPort(u)| + 1 + |u.port.value|
    ensures Compose(u)[|UpToPort(u)|] == 58
    ensures Compose(u)[|UpToPort(u)| + 1..|UpToPath(u)|] == u.port.value
  {
    Prefixes(u);
    var t := Compose(u);
    hide Compose, UpToPort;
    PrefixPiece(UpToPort(u), [58] + u.port.value, t);
    assert UpToPort(u) + ([58] + u.port.value) == UpToPort(u) + [58] + u.port.value;
    PrefixPiece(UpToPort(u) + [58], u.port.value, t);
  }

  lemma PathPiece(u: Parts)
    ensures |UpToPath(u)| <= |UpToQuery(u)| <= |Compose(u)| && Compose(u)[|UpToPath(u)|..|UpToQuery(u)|] == u.path
  {
    Prefixes(u);
    var t := Compose(u);
    hide Compose, UpToPath;
    PrefixPiece(UpToPath(u), u.path, t);
  }

  lemma QueryPiece(u: Parts)
    requires u.query.Some?
    ensures |UpToFragment(u)| <= |Compose(u)| && |UpToFragment(u)| == |UpToQuery(u)| + 1 + |u.query.value|
    ensures Compose(u)[|UpToQuery(u)| + 1..|UpToFragment(u)|] == u.query.value
  {
    Prefixes(u);
    var t := Compose(u);
    hide Compose, UpToQuery;
    assert UpToQuery(u) + ([63] + u.query.value) == UpToQuery(u) + [63] + u.query.value;
    PrefixPiece(UpToQuery(u) + [63], u.query.value, t);
  }

  lemma FragmentPiece(u: Parts)
    requires u.fragment.Some?
    ensures |Compose(u)| == |UpToFragment(u)| + 1 + |u.fragment.value|
    ensures Compose(u)[|UpToFragment(u)| + 1..|Compose(u)|] == u.fragment.value
  {
    Joined(u);
    var t := Compose(u);
    hide Compose, UpToFragment;
    assert UpToFragment(u) + ([35] + u.fragment.value) == UpToFragment(u) + [35] + u.fragment.value;
    PrefixPiece(UpToFragment(u) + [35], u.fragment.value, t);
  }

  // ---------- the host scan ----------

  lemma InPiece(t: seq<Byte>, n: nat, m: nat, seg: seq<Byte>, i: nat)
    requires n <= i < m <= |t| && t[n..m] == seg
    ensures t[i] in seg
  {
    assert t[i] == seg[i - n];
  }

  lemma NameChar(c: Byte)
    ensures UserinfoChar(c) ==> ParseHostChar(UserinfoStart, c) == Userinfo && ParseHostChar(Userinfo, c) == Userinfo
    ensures HostChar(c) ==> ParseHostChar(HostStart, c) == Host && ParseHostChar(Host, c) == Host
    ensures V6Char(c) ==> ParseHostChar(V6Start, c) == V6 && ParseHostChar(V6, c) == V6
  {
  }

  lemma UserChars(u: Parts)
    requires PartsOk(u) && u.user.Some?
    ensures |UpToHost(u)| <= |Compose(u)| && |UpToHost(u)| == |UpToServer(u)| + |u.user.value| + 1
    ensures forall i :: |UpToServer(u)| <= i < |UpToServer(u)| + |u.user.value| ==>
              && ParseHostChar(UserinfoStart, Compose(u)[i]) == Userinfo
              && ParseHostChar(Userinfo, Compose(u)[i]) == Userinfo
  {
    UserPiece(u);
    var t, n, m := Compose(u), |UpToServer(u)|, |UpToServer(u)| + |u.user.value|;
    hide Compose, UpToServer, UpToHost, ParseHostChar, UserinfoChar;
    forall i | n <= i < m
      ensures ParseHostChar(UserinfoStart, t[i]) == Userinfo && ParseHostChar(Userinfo, t[i]) == Userinfo
    {
      InPiece(t, n, m, u.user.value, i);
      NameChar(t[i]);
    }
  }

  lemma HostChars(u: Parts)
    requires PartsOk(u) && u.host.Plain?
    ensures |UpToPort(u)| <= |Compose(u)|
    ensures forall i :: HostAt(u) <= i < |UpToPort(u)| ==>
              ParseHostChar(HostStart, Compose(u)[i]) == Host && ParseHostChar(Host, Compose(u)[i]) == Host
  {
    HostPiece(u);
    var t, n, m := Compose(u), HostAt(u), |UpToPort(u)|;
    hide Compose, HostAt, UpToPort, ParseHostChar, HostChar;
    forall i | n <= i < m
      ensures ParseHostChar(HostStart, t[i]) == Host && ParseHostChar(Host, t[i]) == Host
    {
      InPiece(t, n, m, u.host.name, i);
      NameChar(t[i]);
    }
  }

  lemma AddrChars(u: Parts)
    requires PartsOk(u) && u.host.Literal?
    ensures HostAt(u) + |u.host.addr| <= |Compose(u)|
    ensures forall i :: HostAt(u) <= i < HostAt(u) + |u.host.addr| ==>
              ParseHostChar(V6Start, Compose(u)[i]) == V6 && ParseHostChar(V6, Compose(u)[i]) == V6
  {
    LiteralPiece(u);
    var t, n, m := Compose(u), HostAt(u), HostAt(u) + |u.host.addr|;
    hide Compose, HostAt, ParseHostChar, V6Char;
    forall i | n <= i < m
      ensures ParseHostChar(V6Start, t[i]) == V6 && ParseHostChar(V6, t[i]) == V6
    {
      InPiece(t, n, m, u.host.addr, i);
      NameChar(t[i]);
    }
  }

  lemma ZoneChars(u: Parts)
    requires PartsOk(u) && u.host.Literal? && u.host.zone.Some?
    ensures HostAt(u) + |NameText(u.host)| <= |Compose(u)|
    ensures forall i :: HostAt(u) + |u.host.addr| + 1 <= i < HostAt(u) + |NameText(u.host)| ==> ZoneChar(Compose(u)[i])
  {
    hide Compose, HostAt, NameText, ZoneChar;
    LiteralPiece(u);
    var t, n, m := Compose(u), HostAt(u) + |u.host.addr| + 1, HostAt(u) + |NameText(u.host)|;
    forall i | n <= i < m
      ensures ZoneChar(t[i])
    {
      InPiece(t, n, m, u.host.zone.value, i);
    }
  }

  lemma UserStretch(u: Parts)
    requires PartsOk(u) && u.user.Some?
    ensures |UpToServer(u)| + |u.user.value| < |Compose(u)|
    ensures HostTo(Compose(u), HostPart(u), true, |UpToServer(u)| + |u.user.value|)
            == HostScan(Userinfo, Span(|UpToServer(u)|, 0), Some(Span(|UpToServer(u)|, |u.user.value|)), None)
  {
    hide *;
    UserPiece(u);
    UserChars(u);
    QueryIsThere(u);
    HostBegins(u);
    Sizes(u);
    HostStretch(Compose(u), HostPart(u), true, |UpToServer(u)|, |UpToServer(u)| + |u.user.value|, Userinfo);
  }

  lemma HostBegins(u: Parts)
    ensures |UpToServer(u)| <= |Compose(u)| && HostPart(u).off == |UpToServer(u)|
    ensures HostTo(Compose(u), HostPart(u), true, |UpToServer(u)|)
            == HostScan(UserinfoStart, Span(|UpToServer(u)|, 0), None, None)
  {
    SchemePiece(u);
    hide Compose, UpToServer;
  }

  /** The host scan in front of the host: behind the @ when there is userinfo. */
  lemma UserRead(u: Parts)
    requires PartsOk(u)
    ensures |UpToHost(u)| <= |Compose(u)|
    ensures var h := HostTo(Compose(u), HostPart(u), u.user.Some?, |UpToHost(u)|);
            h == HostScan(HostStart, Span(|UpToServer(u)|, 0),
                          if u.user.Some? then Some(Span(|UpToServer(u)|, |u.user.value|)) else None, None)
  {
    SchemePiece(u);
    var part, t, off := HostPart(u), Compose(u), |UpToServer(u)|;
    if u.user.Some? {
      UserStretch(u);
      UserPiece(u);
      hide Compose, PartsOk, UpToServer, UpToHost, UserinfoChar;
    } else {
      hide PartsOk, Compose;
      assert UpToHost(u) == UpToServer(u) + [] == UpToServer(u);
    }
  }

  function UserSpan(u: Parts): Option<Span>
  {
    if u.user.Some? then Some(Span(|UpToServer(u)|, |u.user.value|)) else None
  }

  /** Where the host ends. */
  function HostEnd(u: Parts): HostState { if u.host.Plain? then Host else V6End }

  lemma PlainRead(u: Parts)
    requires PartsOk(u) && u.host.Plain?
    ensures |UpToPort(u)| <= |Compose(u)|
    ensures HostTo(Compose(u), HostPart(u), u.user.Some?, |UpToPort(u)|)
            == HostScan(Host, Span(HostAt(u), |NameText(u.host)|), UserSpan(u), None)
  {
    UserRead(u);
    HostPiece(u);
    HostChars(u);
    Sizes(u);
    hide Compose, UpToServer, UpToHost, UpToPort, HostTo, ParseHostChar;
    HostStretch(Compose(u), HostPart(u), u.user.Some?, |UpToHost(u)|, |UpToPort(u)|, Host);
  }

  lemma BracketRead(u: Parts)
    requires PartsOk(u) && u.host.Literal?
    ensures HostAt(u) <= |Compose(u)|
    ensures HostTo(Compose(u), HostPart(u), u.user.Some?, HostAt(u))
            == HostScan(V6Start, Span(|UpToServer(u)|, 0), UserSpan(u), None)
  {
    UserRead(u);
    HostPiece(u);
    hide Compose, PartsOk, UpToServer, UpToHost, UpToPort, NameText;
  }

  lemma AddrIsThere(u: Parts)
    requires PartsOk(u) && u.host.Literal?
    ensures u.host.addr != [] && HostPart(u).off == |UpToServer(u)| && |UpToServer(u)| <= |UpToHost(u)| <= HostAt(u)
  {
  }

  lemma AddrRead(u: Parts)
    requires PartsOk(u) && u.host.Literal?
    ensures HostAt(u) + |u.host.addr| <= |Compose(u)|
    ensures HostTo(Compose(u), HostPart(u), u.user.Some?, HostAt(u) + |u.host.addr|)
            == HostScan(V6, Span(HostAt(u), |u.host.addr|), UserSpan(u), None)
  {
    hide *;
    BracketRead(u);
    LiteralPiece(u);
    AddrChars(u);
    AddrIsThere(u);
    Sizes(u);
    HostStretch(Compose(u), HostPart(u), u.user.Some?, HostAt(u), HostAt(u) + |u.host.addr|, V6);
  }

  lemma ZoneIsThere(u: Parts)
    requires PartsOk(u) && u.host.Literal? && u.host.zone.Some?
    ensures u.host.zone.value != []
  {
  }

  /** The literal up to its closing bracket. */
  lemma ZoneRead(u: Parts)
    requires PartsOk(u) && u.host.Literal?
    ensures HostAt(u) + |NameText(u.host)| < |Compose(u)|
    ensures HostTo(Compose(u), HostPart(u), u.user.Some?, HostAt(u) + |NameText(u.host)|)
            == HostScan(if u.host.zone.Some? then Zone else V6, Span(HostAt(u), |NameText(u.host)|), UserSpan(u), None)
  {
    hide *;
    AddrRead(u);
    LiteralPiece(u);
    AddrIsThere(u);
    Sizes(u);
    if u.host.zone.Some? {
      PercentRead(u);
      ZoneChars(u);
      ZoneIsThere(u);
      ZoneStretch(Compose(u), HostPart(u), u.user.Some?, HostAt(u) + |u.host.addr| + 1, HostAt(u) + |NameText(u.host)|);
    }
  }

  lemma PercentRead(u: Parts)
    requires PartsOk(u) && u.host.Literal? && u.host.zone.Some?
    ensures HostAt(u) + |u.host.addr| + 1 <= |Compose(u)|
    ensures HostTo(Compose(u), HostPart(u), u.user.Some?, HostAt(u) + |u.host.addr| + 1)
            == HostScan(ZoneStart, Span(HostAt(u), |u.host.addr| + 1), UserSpan(u), None)
  {
    hide Compose, PartsOk, UpToServer, UpToHost, UpToPort, NameText;
    AddrRead(u);
    LiteralPiece(u);
    Sizes(u);
  }

  lemma HostEnds(u: Parts)
    ensures HostEnd(u) == if u.host.Plain? then Host else V6End
  {
  }

  lemma BracketCloses(buf: seq<Byte>, part: Span, at: bool, n: nat)
    requires part.off <= n < |buf| && buf[n] == 93
    requires HostTo(buf, part, at, n).s == V6 || HostTo(buf, part, at, n).s == Zone
    ensures HostTo(buf, part, at, n + 1) == HostTo(buf, part, at, n).(s := V6End)
  {
    hide HostTo;
    HostSnoc(buf, part, at, n + 1);
  }

  lemma HostRead(u: Parts)
    requires PartsOk(u)
    ensures |UpToPort(u)| <= |Compose(u)|
    ensures HostTo(Compose(u), HostPart(u), u.user.Some?, |UpToPort(u)|)
            == HostScan(HostEnd(u), Span(HostAt(u), |NameText(u.host)|), UserSpan(u), None)
  {
    hide *;
    HostPiece(u);
    HostEnds(u);
    if u.host.Plain? {
      PlainRead(u);
    } else {
      ZoneRead(u);
      AddrIsThere(u);
      BracketCloses(Compose(u), HostPart(u), u.user.Some?, HostAt(u) + |NameText(u.host)|);
    }
  }

  function FoundHost(u: Parts): HostScan
  {
    HostScan(if u.port.Some? then Port else HostEnd(u), Span(HostAt(u), |NameText(u.host)|), UserSpan(u),
             if u.port.Some? then Some(Span(|UpToPort(u)| + 1, |u.port.value|)) else None)
  }

  lemma ColonRead(u: Parts)
    requires PartsOk(u) && u.port.Some?
    ensures |UpToPort(u)| < |Compose(u)|
    ensures HostTo(Compose(u), HostPart(u), u.user.Some?, |UpToPort(u)| + 1)
            == FoundHost(u).(s := PortStart, port := None)
  {
    HostRead(u);
    PortPiece(u);
    hide Compose, PartsOk, UpToServer, UpToHost, UpToPort, UpToPath;
  }

  lemma PortChars(u: Parts)
    requires PartsOk(u) && u.port.Some?
    ensures |UpToPath(u)| <= |Compose(u)|
    ensures forall i :: |UpToPort(u)| + 1 <= i < |UpToPath(u)| ==>
              ParseHostChar(PortStart, Compose(u)[i]) == Port && ParseHostChar(Port, Compose(u)[i]) == Port
  {
    PortPiece(u);
    var t, n, m := Compose(u), |UpToPort(u)| + 1, |UpToPath(u)|;
    hide Compose, UpToPort, UpToPath;
    forall i | n <= i < m
      ensures ParseHostChar(PortStart, t[i]) == Port && ParseHostChar(Port, t[i]) == Port
    {
      assert t[i] == t[n..m][i - n] == u.port.value[i - n];
    }
  }

  lemma PortOk(u: Parts)
    requires PartsOk(u) && u.port.Some?
    ensures u.port.value != [] && AllDigits(u.port.value) && DigitValue(u.port.value) <= 0xffff
  {
  }

  lemma WithPort(u: Parts)
    requires u.port.Some?
    ensures FoundHost(u).(s := PortStart, port := None)
                        .(s := Port, port := Some(Span(|UpToPort(u)| + 1, |u.port.value|)))
            == FoundHost(u)
    ensures HostPart(u).off == |UpToServer(u)| <= |UpToPort(u)|
  {
  }

  lemma PortStretch(u: Parts)
    requires PartsOk(u) && u.port.Some?
    ensures |UpToPath(u)| <= |Compose(u)|
    ensures HostTo(Compose(u), HostPart(u), u.user.Some?, |UpToPath(u)|) == FoundHost(u)
  {
    ColonRead(u);
    PortPiece(u);
    PortChars(u);
    Lengths(u);
    PortOk(u);
    WithPort(u);
    hide *;
    HostStretch(Compose(u), HostPart(u), u.user.Some?, |UpToPort(u)| + 1, |UpToPath(u)|, Port);
  }

  lemma PortRead(u: Parts)
    requires PartsOk(u)
    ensures |UpToPath(u)| <= |Compose(u)|
    ensures HostTo(Compose(u), HostPart(u), u.user.Some?, |UpToPath(u)|) == FoundHost(u)
  {
    if u.port.Some? {
      PortStretch(u);
    } else {
      HostRead(u);
      hide HostTo, Compose, PartsOk;
      assert UpToPath(u) == UpToPort(u) + [] == UpToPort(u);
    }
  }

  // ---------- the round trip ----------

  /** The text of a part of the URL, if it has that part. */
  function PartOf(u: Parts, f: Field): Option<seq<Byte>>
  {
    match f
    case UfSchema => Some(u.scheme)
    case UfUserinfo => u.user
    case UfHost => Some(NameText(u.host))
    case UfPort => u.port
    case UfPath => if u.path == [] then None else Some(u.path)
    case UfQuery => u.query
    case UfFragment => u.fragment
  }

  lemma HostSplit(u: Parts)
    requires PartsOk(u) && Fits(u)
    ensures var k := Scanned(Compose(u));
            && k.s != Dead && (UfHost in k.fields ==> End(k.fields[UfHost]) <= |Compose(u)|)
            && SplitAt(Compose(u), k) == Some(SplitHost(Found(u), FoundHost(u)))
  {
    AllScanned(u);
    PortRead(u);
    assert End(HostPart(u)) == |UpToPath(u)|;
    hide ScanTo, HostTo, Compose, UpToServer, UpToPath, SplitHost;
  }

  /** Where the splitter finds each part. */
  function SpanOf(u: Parts, f: Field): Option<Span>
  {
    match f
    case UfSchema => Some(Span(0, |u.scheme|))
    case UfUserinfo => FoundHost(u).user
    case UfHost => Some(FoundHost(u).host)
    case UfPort => FoundHost(u).port
    case UfPath => if u.path == [] then None else Some(Span(|UpToPath(u)|, |u.path|))
    case UfQuery => if u.query.Some? then Some(Span(|UpToQuery(u)| + 1, |u.query.value|)) else None
    case UfFragment => if u.fragment.Some? then Some(Span(|UpToFragment(u)| + 1, |u.fragment.value|)) else None
  }

  lemma FieldSpan(u: Parts, f: Field)
    ensures var fields := SplitHost(Found(u), FoundHost(u));
            (f in fields <==> SpanOf(u, f).Some?) && (f in fields ==> fields[f] == SpanOf(u, f).value)
  {
    hide UpToServer, UpToHost, UpToPort, UpToPath, UpToQuery, UpToFragment;
  }

  /** Each field found holds the text of its part, and there is a field for every part. */
  lemma FieldText(u: Parts, f: Field)
    requires PartsOk(u)
    ensures SpanOf(u, f).Some? <==> PartOf(u, f).Some?
    ensures SpanOf(u, f).Some? ==>
              && End(SpanOf(u, f).value) <= |Compose(u)|
              && Text(Compose(u), SpanOf(u, f).value) == PartOf(u, f).value
  {
    hide Compose, PartsOk, UpToServer, UpToHost, UpToPort, UpToPath, UpToQuery, UpToFragment;
    match f
    case UfSchema => SchemePiece(u);
    case UfUserinfo => if u.user.Some? { UserPiece(u); }
    case UfHost => HostPiece(u);
    case UfPort => if u.port.Some? { PortPiece(u); }
    case UfPath => PathLength(u); PathPiece(u);
    case UfQuery => if u.query.Some? { QueryPiece(u); }
    case UfFragment => if u.fragment.Some? { FragmentPiece(u); }
  }

  lemma PathLength(u: Parts)
    ensures |UpToQuery(u)| == |UpToPath(u)| + |u.path|
  {
  }

  predicate EndsWithPort(u: Parts)
  {
    u.port.Some? && u.path == [] && u.query.None? && u.fragment.None?
  }

  /** What lies behind the port. */
  lemma BehindPort(u: Parts)
    requires PartsOk(u) && Fits(u)
    ensures |UpToPath(u)| <= |Compose(u)|
    ensures |UpToPath(u)| < |Compose(u)| ==> Compose(u)[|UpToPath(u)|] == 47 || Compose(u)[|UpToPath(u)|] == 63
    ensures |UpToPath(u)| == |Compose(u)| ==> EndsWithPort(u) || u.port.None?
  {
    Prefixes(u);
    Joined(u);
    PathPiece(u);
    var t, n := Compose(u), |UpToPath(u)|;
    hide Compose, UpToPath;
    if u.path != [] {
      assert t[n] == t[n..|UpToQuery(u)|][0];
    } else if u.query.Some? {
      PrefixPiece(UpToQuery(u), [63] + u.query.value, t);
    } else {
      assert UpToFragment(u) == UpToPath(u);
    }
  }

  lemma PortText(u: Parts, span: Span)
    requires u.port.Some? && span == Span(|UpToPort(u)| + 1, |u.port.value|)
    ensures End(span) == |UpToPath(u)| <= |Compose(u)| && Text(Compose(u), span) == u.port.value
  {
    PortPiece(u);
    hide Compose, UpToPort, UpToPath;
  }

  lemma PortNumberIs(u: Parts, beyond: seq<Byte>)
    requires PartsOk(u) && Fits(u) && u.port.Some? && (EndsWithPort(u) ==> Digits(beyond) == [])
    ensures |UpToPort(u)| + 1 <= |Compose(u)|
    ensures PortNumber(Compose(u), beyond, |UpToPort(u)| + 1) == DigitValue(u.port.value) <= 0xffff
  {
    hide *;
    PortPiece(u);
    BehindPort(u);
    PortOk(u);
    var span := Span(|UpToPort(u)| + 1, |u.port.value|);
    PortText(u, span);
    DigitsAlone(Compose(u), beyond, span, u.port.value);
  }

  lemma DigitsAlone(t: seq<Byte>, beyond: seq<Byte>, span: Span, d: seq<Byte>)
    requires span.len > 0 && End(span) <= |t| && Text(t, span) == d && AllDigits(d)
    requires if End(span) == |t| then Digits(beyond) == [] else t[End(span)] == 47 || t[End(span)] == 63
    ensures PortNumber(t, beyond, span.off) == DigitValue(d)
  {
    hide PortNumber, Text, AllDigits;
    PortDigits(t, beyond, span);
    NothingBehind(d);
  }

  lemma NothingBehind(d: seq<Byte>)
    ensures d + [] == d
  {
  }

  /** A field for each part and no other, holding the text of that part. */
  ghost predicate HoldsParts(fields: map<Field, Span>, t: seq<Byte>, u: Parts)
  {
    && (forall f :: f in fields <==> PartOf(u, f).Some?)
    && (forall f :: f in fields ==> End(fields[f]) <= |t| && Text(t, fields[f]) == PartOf(u, f).value)
  }

  lemma FieldsHoldParts(u: Parts)
    requires PartsOk(u)
    ensures HoldsParts(SplitHost(Found(u), FoundHost(u)), Compose(u), u)
  {
    forall f
      ensures var fields := SplitHost(Found(u), FoundHost(u));
              && (f in fields <==> PartOf(u, f).Some?)
              && (f in fields ==> End(fields[f]) <= |Compose(u)| && Text(Compose(u), fields[f]) == PartOf(u, f).value)
    {
      FieldSpan(u, f);
      FieldText(u, f);
      hide *;
    }
    hide Compose, SplitHost, Found, FoundHost, Text, PartOf;
  }

  lemma PortSpan(u: Parts)
    ensures var fields := SplitHost(Found(u), FoundHost(u));
            (UfPort in fields <==> u.port.Some?) && (UfPort in fields ==> fields[UfPort].off == |UpToPort(u)| + 1)
  {
    FieldSpan(u, UfPort);
    hide Found, SplitHost, UpToPort;
  }

  /** What the splitter makes of fields whose port is small enough. */
  lemma Accepted(t: seq<Byte>, beyond: seq<Byte>, fields: map<Field, Span>)
    requires var k := Scanned(t);
             && k.s != Dead && (UfHost in k.fields ==> End(k.fields[UfHost]) <= |t|) && SplitAt(t, k) == Some(fields)
    requires UfPort in fields ==> fields[UfPort].off <= |t| && PortNumber(t, beyond, fields[UfPort].off) <= 0xffff
    ensures ParseUrl(t, beyond, false)
            == Some(Url(fields, if UfPort in fields then PortNumber(t, beyond, fields[UfPort].off) else 0))
  {
    hide ScanTo, HostTo, PortNumber, SplitAt;
  }

  lemma SplitFitting(u: Parts, beyond: seq<Byte>)
    requires PartsOk(u) && Fits(u) && (EndsWithPort(u) ==> Digits(beyond) == [])
    ensures var url := ParseUrl(Compose(u), beyond, false);
            && url.Some? && url.value.port == (if u.port.Some? then DigitValue(u.port.value) else 0)
            && HoldsParts(url.value.fields, Compose(u), u)
  {
    hide *;
    HostSplit(u);
    FieldsHoldParts(u);
    PortSpan(u);
    if u.port.Some? {
      PortNumberIs(u, beyond);
    }
    Accepted(Compose(u), beyond, SplitHost(Found(u), FoundHost(u)));
  }

  // ---------- a limit ----------

  lemma {:induction false} DeadStays(a: seq<Byte>, tail: seq<Byte>)
    requires Scanned(a).s == Dead
    ensures Scanned(a + tail).s == Dead
    decreases |tail|
  {
    if tail == [] {
      assert a + tail == a;
    } else {
      var n := |tail| - 1;
      DeadStays(a, tail[..n]);
      assert a + tail == (a + tail[..n]) + [tail[n]];
      Snoc(a + tail[..n], tail[n]);
    }
  }

  /** Anything behind a # that is directly behind the authority. */
  lemma RefusedBehindHost(a: seq<Byte>, fragment: seq<Byte>, beyond: seq<Byte>)
    requires Scanned(a).s == Server
    ensures ParseUrl(a + [35] + fragment, beyond, false).None?
  {
    Snoc(a, 35);
    AdvanceState(Scanned(a), |a|, 35);
    hide ScanTo, ScanChar;
    DeadStays(a + [35], fragment);
  }

  lemma NotFittingRefused(u: Parts, beyond: seq<Byte>)
    requires PartsOk(u) && !Fits(u)
    ensures ParseUrl(Compose(u), beyond, false).None?
  {
    AuthorityScanned(u);
    Joined(u);
    assert UpToFragment(u) == UpToPath(u);
    hide Scanned, PartsOk, UpToPath, UpToFragment, Compose, ParseUrl;
    RefusedBehindHost(UpToPath(u), u.fragment.value, beyond);
    assert UpToPath(u) + [35] + u.fragment.value == UpToPath(u) + ([35] + u.fragment.value);
  }

  /** A URL put together from its parts is accepted exactly when its fragment, if it has one, comes behind a
      path or a query, though section 3 of RFC 3986 allows one directly behind the authority too; then
      splitting it gives these parts back, and the port's number, unless the port ends the URL and digits
      lie behind. */
  lemma SplitAfterCompose(u: Parts, beyond: seq<Byte>)
    requires PartsOk(u) && (EndsWithPort(u) ==> Digits(beyond) == [])
    ensures var url := ParseUrl(Compose(u), beyond, false);
            && (url.Some? <==> u.fragment.None? || u.path != [] || u.query.Some?)
            && (url.Some? ==>
                 && url.value.port == (if u.port.Some? then DigitValue(u.port.value) else 0)
                 && HoldsParts(url.value.fields, Compose(u), u))
  {
    hide ParseUrl, PartsOk, HoldsParts, Compose;
    if Fits(u) {
      SplitFitting(u, beyond);
    } else {
      NotFittingRefused(u, beyond);
    }
  }
}
