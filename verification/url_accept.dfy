/** What the URL splitter of app/st_wrk/http_parser.c accepts: the converse of UrlCompose. */
module UrlAccept {
  import opened Bytes
  import opened Queues
  import opened UrlModel
  import opened UrlCompose

  /** A URL by its delimiters, as loosely as the scan takes it: the target of a CONNECT is an authority; a query
      may be empty, several # may stand before the fragment, which may be missing. */
  datatype Shape = Shape(connect: bool, scheme: seq<Byte>, part: seq<Byte>, path: seq<Byte>,
                         query: Option<seq<Byte>>, hashes: nat, fragment: seq<Byte>)

  function Lead(u: Shape): seq<Byte>
  {
    if u.connect || u.scheme == [] then [] else u.scheme + [58, 47, 47]
  }

  function Hashes(n: nat): (h: seq<Byte>)
    ensures |h| == n
  {
    seq(n, _ => 35)
  }

  function QueryText(u: Shape): seq<Byte>
  {
    if u.query.Some? then [63] + u.query.value else []
  }

  function Spelled(u: Shape): seq<Byte>
  {
    Lead(u) + u.part + u.path + QueryText(u) + Hashes(u.hashes) + u.fragment
  }

  predicate PartChar(c: Byte) { UserinfoChar(c) || c == 91 || c == 93 || c == 64 }

  /** The parts consist of the characters they may. */
  ghost predicate ShapeOk(u: Shape)
  {
    && (forall c :: c in u.scheme ==> Alpha(c)) && (forall c :: c in u.part ==> PartChar(c))
    && (forall c :: c in u.path ==> UrlChar(c))
    && (u.query.Some? ==> forall c :: c in u.query.value ==> UrlChar(c) || c == 63)
    && (forall c :: c in u.fragment ==> UrlChar(c) || c == 63 || c == 35)
    && (u.path != [] ==> u.path[0] == 47 || (u.path[0] == 42 && !u.connect && u.scheme == []))
    && (u.fragment != [] ==> u.hashes > 0 && u.fragment[0] != 35)
    && (u.connect ==> u.scheme == []) && (!u.connect && u.scheme == [] ==> u.part == [])
  }

  // ---------- fields by their places ----------

  function Len(u: Shape, f: Field): nat
  {
    match f
    case UfSchema => |u.scheme|
    case UfHost => |u.part|
    case UfPath => |u.path|
    case UfQuery => if u.query.Some? then |u.query.value| else 0
    case UfFragment => |u.fragment|
    case _ => 0
  }

  function Off(u: Shape, f: Field): nat
  {
    match f
    case UfHost => |Lead(u)|
    case UfPath => |Lead(u)| + |u.part|
    case UfQuery => |Lead(u)| + |u.part| + |u.path| + 1
    case UfFragment => |Lead(u)| + |u.part| + |u.path| + |QueryText(u)| + u.hashes
    case _ => 0
  }

  /** The parts that are not empty. */
  ghost function FieldsOf(u: Shape): map<Field, Span>
  {
    map f: Field | Len(u, f) > 0 :: Span(Off(u, f), Len(u, f))
  }

  function LastOf(u: Shape): Option<Field>
  {
    if u.fragment != [] then Some(UfFragment)
    else if Len(u, UfQuery) > 0 then Some(UfQuery)
    else if u.path != [] then Some(UfPath)
    else if u.part != [] then Some(UfHost)
    else if u.scheme != [] then Some(UfSchema)
    else None
  }

  /** Nothing behind the field of the state has come yet. */
  ghost predicate UpTo(u: Shape, f: Field)
  {
    && (Rank(f) < Rank(UfFragment) ==> u.fragment == [] && u.hashes == 0)
    && (Rank(f) < Rank(UfQuery) ==> u.query == None)
    && (Rank(f) < Rank(UfPath) ==> u.path == [])
    && (Rank(f) < Rank(UfHost) ==> u.part == [])
  }

  /** The bytes bs brought the scan to k. */
  ghost predicate At(k: Scan, u: Shape, bs: seq<Byte>)
  {
    && ShapeOk(u) && k.fields == FieldsOf(u) && k.last == LastOf(u) && k.at == (64 in u.part)
    && match k.s
       case SpacesBeforeUrl => bs == [] && UpTo(u, UfSchema) && u.scheme == [] && !u.connect
       case Schema => bs == u.scheme != [] && UpTo(u, UfSchema)
       case SchemaSlash => bs == u.scheme + [58] && u.scheme != [] && UpTo(u, UfSchema)
       case SchemaSlashSlash => bs == u.scheme + [58, 47] && u.scheme != [] && UpTo(u, UfSchema)
       case ServerStart => bs == Lead(u) && UpTo(u, UfSchema) && (u.connect || u.scheme != [])
       case Server => bs == Spelled(u) && UpTo(u, UfHost) && u.part != []
       case ServerWithAt => bs == Spelled(u) && UpTo(u, UfHost) && u.part != []
       case Path => bs == Spelled(u) && UpTo(u, UfPath) && u.path != []
       case QueryStart => bs == Spelled(u) && UpTo(u, UfQuery) && u.query == Some([])
       case Query => bs == Spelled(u) && UpTo(u, UfQuery) && Len(u, UfQuery) > 0
       case FragmentStart => bs == Spelled(u) && u.hashes > 0 && u.fragment == []
       case Fragment => bs == Spelled(u) && u.fragment != []
       case Dead => false
  }

  /** One byte more in field f, and nothing else. */
  ghost predicate Grows(u: Shape, u': Shape, f: Field, p: nat)
  {
    && Len(u', f) == Len(u, f) + 1 && LastOf(u') == Some(f)
    && (forall g :: g != f ==> Len(u', g) == Len(u, g))
    && (forall g :: Len(u, g) > 0 ==> Off(u', g) == Off(u, g))
    && (if Len(u, f) > 0 then LastOf(u) == Some(f) else Off(u', f) == p)
    && p < MAX_BUFFER && Len(u', f) <= MAX_BUFFER
  }

  lemma FieldGrows(k: Scan, u: Shape, u': Shape, f: Field, p: nat, s: UrlState)
    requires k.fields == FieldsOf(u) && k.last == LastOf(u) && FieldOf(s) == Some(f) && Grows(u, u', f, p)
    ensures Advance(k, p, s).fields == FieldsOf(u') && Advance(k, p, s).last == LastOf(u')
    ensures Advance(k, p, s).at == (k.at || s == ServerWithAt) && Advance(k, p, s).s == s
  {
    hide Len, Off, LastOf;
    assert f in FieldsOf(u) <==> Len(u, f) > 0;
    var fields := Advance(k, p, s).fields;
    forall g: Field
      ensures g in fields <==> g in FieldsOf(u')
      ensures g in fields ==> fields[g] == FieldsOf(u')[g]
    {
      assert g in FieldsOf(u) <==> Len(u, g) > 0;
      assert g in FieldsOf(u') <==> Len(u', g) > 0;
    }
  }

  /** A delimiter. */
  lemma FieldsStay(u: Shape, u': Shape)
    requires forall g :: Len(u', g) == Len(u, g)
    requires forall g :: Len(u, g) > 0 ==> Off(u', g) == Off(u, g)
    ensures FieldsOf(u') == FieldsOf(u)
  {
    hide Len, Off;
    forall g: Field
      ensures g in FieldsOf(u) <==> g in FieldsOf(u')
      ensures g in FieldsOf(u) ==> FieldsOf(u)[g] == FieldsOf(u')[g]
    {
      assert g in FieldsOf(u) <==> Len(u, g) > 0;
      assert g in FieldsOf(u') <==> Len(u', g) > 0;
    }
  }

  // ---------- one byte ----------

  /** The scheme and its delimiters. */
  lemma SchemeByte(k: Scan, u: Shape, bs: seq<Byte>, c: Byte) returns (u': Shape)
    requires At(k, u, bs) && (k.s == Schema || k.s == SchemaSlash || k.s == SchemaSlashSlash)
    requires |bs| < MAX_BUFFER && ParseUrlChar(k.s, c) != Dead
    ensures At(ScanChar(k, |bs|, c), u', bs + [c]) && u'.connect == u.connect
  {
    hide UrlChar, PartChar, FieldsOf;
    if k.s == Schema && c != 58 {
      u' := u.(scheme := u.scheme + [c]);
      FieldGrows(k, u, u', UfSchema, |bs|, Schema);
    } else if k.s == Schema {
      u' := u;
    } else if k.s == SchemaSlash {
      u' := u;
      assert u.scheme + [58] + [47] == u.scheme + [58, 47];
    } else {
      u' := u;
      assert u.scheme + [58, 47] + [47] == u.scheme + [58, 47, 47];
    }
  }

  /** The first byte of a URL that is no CONNECT target. */
  lemma FirstByte(k: Scan, u: Shape, c: Byte) returns (u': Shape)
    requires At(k, u, []) && k.s == SpacesBeforeUrl && ParseUrlChar(k.s, c) != Dead
    ensures At(ScanChar(k, 0, c), u', [c]) && u'.connect == u.connect
  {
    hide FieldsOf, PartChar;
    if c == 47 || c == 42 {
      u' := u.(path := [c]);
      assert Spelled(u') == [c];
      FieldGrows(k, u, u', UfPath, 0, Path);
    } else {
      u' := u.(scheme := [c]);
      FieldGrows(k, u, u', UfSchema, 0, Schema);
    }
  }

  /** A byte of the authority. */
  lemma PartByte(k: Scan, u: Shape, bs: seq<Byte>, c: Byte) returns (u': Shape)
    requires At(k, u, bs) && (k.s == ServerStart || k.s == Server || k.s == ServerWithAt)
    requires |bs| < MAX_BUFFER && (ParseUrlChar(k.s, c) == Server || ParseUrlChar(k.s, c) == ServerWithAt)
    ensures At(ScanChar(k, |bs|, c), u', bs + [c]) && u'.connect == u.connect
  {
    hide Alpha, UrlChar, FieldsOf, UserinfoChar;
    u' := u.(part := u.part + [c]);
    assert PartChar(c);
    assert Lead(u') == Lead(u) && Spelled(u') == Spelled(u) + [c] && Spelled(u) == Lead(u) + u.part;
    assert 64 in u'.part <==> 64 in u.part || c == 64;
    FieldGrows(k, u, u', UfHost, |bs|, ParseUrlChar(k.s, c));
  }

  lemma PathGrows(u: Shape, c: Byte)
    requires UpTo(u, UfPath) && |Spelled(u)| < MAX_BUFFER
    ensures Grows(u, u.(path := u.path + [c]), UfPath, |Spelled(u)|)
  {
  }

  lemma QueryGrows(u: Shape, c: Byte)
    requires UpTo(u, UfQuery) && u.query.Some? && |Spelled(u)| < MAX_BUFFER
    ensures Grows(u, u.(query := Some(u.query.value + [c])), UfQuery, |Spelled(u)|)
  {
  }

  /** The first byte of the path behind an authority, and every later one. */
  lemma PathByte(k: Scan, u: Shape, bs: seq<Byte>, c: Byte) returns (u': Shape)
    requires At(k, u, bs) && (k.s == ServerStart || k.s == Server || k.s == ServerWithAt || k.s == Path)
    requires |bs| < MAX_BUFFER && ParseUrlChar(k.s, c) == Path
    ensures At(ScanChar(k, |bs|, c), u', bs + [c]) && u'.connect == u.connect
  {
    hide Alpha, FieldsOf, UserinfoChar, PartChar;
    u' := u.(path := u.path + [c]);
    assert UrlChar(c);
    assert Lead(u') == Lead(u) && Spelled(u') == Spelled(u) + [c] && Spelled(u) == Lead(u) + u.part + u.path;
    assert u.path != [] ==> u'.path[0] == u.path[0];
    PathGrows(u, c);
    FieldGrows(k, u, u', UfPath, |bs|, Path);
  }

  /** The question mark. */
  lemma QueryMark(k: Scan, u: Shape, bs: seq<Byte>, c: Byte) returns (u': Shape)
    requires At(k, u, bs) && (k.s == ServerStart || k.s == Server || k.s == ServerWithAt || k.s == Path)
    requires ParseUrlChar(k.s, c) == QueryStart
    ensures At(ScanChar(k, |bs|, c), u', bs + [c]) && u'.connect == u.connect
  {
    hide Alpha, FieldsOf, UserinfoChar, PartChar, UrlChar;
    u' := u.(query := Some([]));
    assert c == 63;
    assert Lead(u') == Lead(u) && Spelled(u') == Spelled(u) + [c] && Spelled(u) == Lead(u) + u.part + u.path;
    FieldsStay(u, u');
  }

  lemma QueryByte(k: Scan, u: Shape, bs: seq<Byte>, c: Byte) returns (u': Shape)
    requires At(k, u, bs) && (k.s == QueryStart || k.s == Query) && |bs| < MAX_BUFFER && ParseUrlChar(k.s, c) == Query
    ensures At(ScanChar(k, |bs|, c), u', bs + [c]) && u'.connect == u.connect
  {
    hide Alpha, FieldsOf, UserinfoChar, PartChar, UrlChar;
    u' := u.(query := Some(u.query.value + [c]));
    assert UrlChar(c) || c == 63;
    assert Lead(u') == Lead(u) && QueryText(u') == QueryText(u) + [c] && Spelled(u') == Spelled(u) + [c];
    assert Spelled(u) == Lead(u) + u.part + u.path + QueryText(u);
    QueryGrows(u, c);
    FieldGrows(k, u, u', UfQuery, |bs|, Query);
  }

  /** A # in front of the fragment. */
  lemma HashMark(k: Scan, u: Shape, bs: seq<Byte>, c: Byte) returns (u': Shape)
    requires At(k, u, bs) && (k.s == Path || k.s == QueryStart || k.s == Query || k.s == FragmentStart)
    requires ParseUrlChar(k.s, c) == FragmentStart
    ensures At(ScanChar(k, |bs|, c), u', bs + [c]) && u'.connect == u.connect
  {
    hide Alpha, FieldsOf, UserinfoChar, PartChar, UrlChar;
    u' := u.(hashes := u.hashes + 1);
    assert c == 35;
    assert Hashes(u'.hashes) == Hashes(u.hashes) + [c];
    assert Lead(u') == Lead(u) && QueryText(u') == QueryText(u) && Spelled(u') == Spelled(u) + [c];
    FieldsStay(u, u');
  }

  lemma FragmentByte(k: Scan, u: Shape, bs: seq<Byte>, c: Byte) returns (u': Shape)
    requires At(k, u, bs) && (k.s == FragmentStart || k.s == Fragment) && |bs| < MAX_BUFFER
    requires ParseUrlChar(k.s, c) == Fragment
    ensures At(ScanChar(k, |bs|, c), u', bs + [c]) && u'.connect == u.connect
  {
    hide Alpha, FieldsOf, UserinfoChar, PartChar;
    u' := u.(fragment := u.fragment + [c]);
    assert UrlChar(c) || c == 63 || c == 35;
    assert Lead(u') == Lead(u) && QueryText(u') == QueryText(u) && Spelled(u') == Spelled(u) + [c];
    assert u.fragment != [] ==> u'.fragment[0] == u.fragment[0];
    FieldGrows(k, u, u', UfFragment, |bs|, Fragment);
  }

  /** Which states a byte leads to. */
  lemma UrlMoves(s: UrlState, c: Byte)
    ensures match ParseUrlChar(s, c)
            case Dead => true
            case SpacesBeforeUrl => false
            case Schema => s == SpacesBeforeUrl || s == Schema
            case SchemaSlash => s == Schema
            case SchemaSlashSlash => s == SchemaSlash
            case ServerStart => s == SchemaSlashSlash
            case Server => s == ServerStart || s == Server || s == ServerWithAt
            case ServerWithAt => s == ServerStart || s == Server
            case Path => s == SpacesBeforeUrl || s == ServerStart || s == Server || s == ServerWithAt || s == Path
            case QueryStart => s == ServerStart || s == Server || s == ServerWithAt || s == Path
            case Query => s == QueryStart || s == Query
            case FragmentStart => s == Path || s == QueryStart || s == Query || s == FragmentStart
            case Fragment => s == FragmentStart || s == Fragment
  {
  }

  lemma StartIsAt(connect: bool)
    ensures At(Start(connect), Shape(connect, [], [], [], None, 0, []), [])
  {
    assert FieldsOf(Shape(connect, [], [], [], None, 0, [])) == map[];
  }

  /** The scan of n bytes that has not died knows how they are put together. */
  lemma {:induction false} ScanIsAt(buf: seq<Byte>, n: nat, connect: bool) returns (u: Shape)
    requires n <= |buf| <= MAX_BUFFER && ScanTo(buf, n, connect).s != Dead
    ensures At(ScanTo(buf, n, connect), u, buf[..n]) && u.connect == connect
    decreases n
  {
    hide At, ParseUrlChar, ScanChar;
    if n == 0 {
      StartIsAt(connect);
      u := Shape(connect, [], [], [], None, 0, []);
      assert buf[..0] == [];
    } else {
      var k := ScanTo(buf, n - 1, connect);
      var u0 := ScanIsAt(buf, n - 1, connect);
      u := OneByte(k, u0, buf[..n - 1], buf[n - 1]);
      assert buf[..n - 1] + [buf[n - 1]] == buf[..n];
    }
  }

  lemma OneByte(k: Scan, u: Shape, bs: seq<Byte>, c: Byte) returns (u': Shape)
    requires At(k, u, bs) && |bs| < MAX_BUFFER && ScanChar(k, |bs|, c).s != Dead
    ensures At(ScanChar(k, |bs|, c), u', bs + [c]) && u'.connect == u.connect
  {
    UrlMoves(k.s, c);
    AdvanceState(k, |bs|, c);
    StartIsEmpty(k, u, bs);
    hide At, ParseUrlChar, ScanChar;
    match ParseUrlChar(k.s, c)
    case Schema =>
      if k.s == SpacesBeforeUrl {
        u' := FirstByte(k, u, c);
        assert bs + [c] == [c];
      } else {
        u' := SchemeByte(k, u, bs, c);
      }
    case SchemaSlash => u' := SchemeByte(k, u, bs, c);
    case SchemaSlashSlash => u' := SchemeByte(k, u, bs, c);
    case ServerStart => u' := SchemeByte(k, u, bs, c);
    case Server => u' := PartByte(k, u, bs, c);
    case ServerWithAt => u' := PartByte(k, u, bs, c);
    case Path =>
      if k.s == SpacesBeforeUrl {
        u' := FirstByte(k, u, c);
        assert bs + [c] == [c];
      } else {
        u' := PathByte(k, u, bs, c);
      }
    case QueryStart => u' := QueryMark(k, u, bs, c);
    case Query => u' := QueryByte(k, u, bs, c);
    case FragmentStart => u' := HashMark(k, u, bs, c);
    case Fragment => u' := FragmentByte(k, u, bs, c);
  }

  lemma StartIsEmpty(k: Scan, u: Shape, bs: seq<Byte>)
    requires At(k, u, bs)
    ensures k.s == SpacesBeforeUrl ==> bs == []
  {
  }

  // ---------- the authority ----------

  /** Userinfo in front of an @, which may be empty, a host, and a port. */
  datatype Site = Site(at: bool, user: seq<Byte>, name: Name, port: seq<Byte>)

  function UserText(a: Site): seq<Byte>
  {
    if a.at then a.user + [64] else []
  }

  function PortText(a: Site): seq<Byte>
  {
    if a.port != [] then [58] + a.port else []
  }

  function ServerText(a: Site): seq<Byte>
  {
    UserText(a) + NameWire(a.name) + PortText(a)
  }

  ghost predicate ServerOk(a: Site)
  {
    (forall c :: c in a.user ==> UserinfoChar(c)) && (!a.at ==> a.user == []) && NameOk(a.name) && AllDigits(a.port)
  }

  /** Where the host lies when the authority begins at `from`: a literal without its brackets. */
  function NameSpan(a: Site, from: nat): Span
  {
    Span(from + |UserText(a)| + (if a.name.Plain? then 0 else 1), |NameText(a.name)|)
  }

  function PortSpan(a: Site, from: nat): Span
  {
    Span(from + |UserText(a)| + |NameWire(a.name)| + 1, |a.port|)
  }

  /** The fields with the host part split; an empty userinfo is no field. */
  function ServerFields(fields: map<Field, Span>, a: Site, from: nat): map<Field, Span>
  {
    var f1 := fields[UfHost := NameSpan(a, from)];
    var f2 := if a.port != [] then f1[UfPort := PortSpan(a, from)] else f1;
    if a.user != [] then f2[UfUserinfo := Span(from, |a.user|)] else f2
  }

  /** What has come of the host. */
  ghost predicate NameBegun(h: Name)
  {
    match h
    case Plain(name) => forall c :: c in name ==> HostChar(c)
    case Literal(addr, zone) =>
      && (forall c :: c in addr ==> V6Char(c)) && (zone.Some? ==> forall c :: c in zone.value ==> ZoneChar(c))
  }

  /** The bytes bs of the authority brought the host scan to h. */
  ghost predicate HostAt(h: HostScan, a: Site, from: nat, bs: seq<Byte>)
  {
    && (forall c :: c in a.user ==> UserinfoChar(c)) && (!a.at ==> a.user == []) && NameBegun(a.name)
    && AllDigits(a.port) && h.user == (if a.user != [] then Some(Span(from, |a.user|)) else None)
    && h.port == (if a.port != [] then Some(PortSpan(a, from)) else None)
    && (h.s == Port <==> a.port != []) && (h.host.len == 0 || h.host == NameSpan(a, from))
    && match h.s
       case UserinfoStart => a.at && bs == [] && a.user == [] && a.name == Plain([]) && h.host.len == 0
       case Userinfo => a.at && bs == a.user != [] && a.name == Plain([]) && h.host.len == 0
       case HostStart => bs == UserText(a) && a.name == Plain([]) && h.host.len == 0
       case V6Start => bs == UserText(a) + [91] && a.name == Literal([], None) && h.host.len == 0
       case Host => bs == UserText(a) + NameText(a.name) && a.name.Plain? && h.host.len > 0
       case V6 => bs == UserText(a) + [91] + NameText(a.name) && a.name.Literal? && a.name.zone.None? && h.host.len > 0
       case ZoneStart =>
         && bs == UserText(a) + [91] + NameText(a.name) && a.name.Literal? && a.name.addr != []
         && a.name.zone == Some([]) && h.host.len > 0
       case Zone =>
         && bs == UserText(a) + [91] + NameText(a.name) && a.name.Literal? && a.name.addr != []
         && a.name.zone.Some? && a.name.zone.value != [] && h.host.len > 0
       case V6End => bs == UserText(a) + NameWire(a.name) && a.name.Literal? && NameOk(a.name) && h.host.len > 0
       case PortStart => bs == UserText(a) + NameWire(a.name) + [58] && NameOk(a.name) && h.host.len > 0
       case Port => bs == ServerText(a) && NameOk(a.name) && h.host.len > 0
       case HostDead => false
  }

  lemma UserByte(h: HostScan, a: Site, from: nat, bs: seq<Byte>, c: Byte) returns (a': Site)
    requires HostAt(h, a, from, bs) && from + |bs| < MAX_BUFFER && (h.s == UserinfoStart || h.s == Userinfo)
    requires ParseHostChar(h.s, c) != HostDead
    ensures HostAt(HostAdvance(h, from + |bs|, ParseHostChar(h.s, c)), a', from, bs + [c]) && a'.at == a.at
  {
    hide HostChar, UserinfoChar, AllDigits;
    if c == 64 {
      a' := a;
      assert bs == a.user;
    } else {
      a' := a.(user := a.user + [c]);
    }
  }

  lemma NameByte(h: HostScan, a: Site, from: nat, bs: seq<Byte>, c: Byte) returns (a': Site)
    requires HostAt(h, a, from, bs) && from + |bs| < MAX_BUFFER && (h.s == HostStart || h.s == Host)
    requires ParseHostChar(h.s, c) == Host
    ensures HostAt(HostAdvance(h, from + |bs|, Host), a', from, bs + [c]) && a'.at == a.at
  {
    hide UserinfoChar, AllDigits;
    a' := a.(name := Plain(a.name.name + [c]));
    assert UserText(a') == UserText(a) && UserText(a) + (a.name.name + [c]) == UserText(a) + a.name.name + [c];
    assert UserText(a) + a.name.name == bs;
  }

  lemma LiteralByte(h: HostScan, a: Site, from: nat, bs: seq<Byte>, c: Byte) returns (a': Site)
    requires HostAt(h, a, from, bs) && from + |bs| < MAX_BUFFER
    requires var s := ParseHostChar(h.s, c); s == V6Start || s == V6 || s == ZoneStart || s == Zone
    ensures HostAt(HostAdvance(h, from + |bs|, ParseHostChar(h.s, c)), a', from, bs + [c]) && a'.at == a.at
  {
    hide UserinfoChar, AllDigits, HostChar, ZoneChar, IsHexDigit;
    HostMoves(h.s, c);
    match ParseHostChar(h.s, c)
    case V6Start => a' := a.(name := Literal([], None));
    case V6 => a' := a.(name := Literal(a.name.addr + [c], None));
      assert V6Char(c);
      assert UserText(a) + [91] + (a.name.addr + [c] + []) == UserText(a) + [91] + (a.name.addr + []) + [c];
    case ZoneStart =>
      a' := a.(name := a.name.(zone := Some([])));
      assert UserText(a) + [91] + (a.name.addr + ([37] + [])) == UserText(a) + [91] + (a.name.addr + []) + [37];
    case Zone =>
      a' := a.(name := a.name.(zone := Some(a.name.zone.value + [c])));
      assert ZoneChar(c);
      assert UserText(a) + [91] + (a.name.addr + ([37] + (a.name.zone.value + [c])))
          == UserText(a) + [91] + (a.name.addr + ([37] + a.name.zone.value)) + [c];
  }

  lemma LiteralEnds(h: HostScan, a: Site, from: nat, bs: seq<Byte>, c: Byte)
    requires HostAt(h, a, from, bs) && from + |bs| < MAX_BUFFER && ParseHostChar(h.s, c) == V6End
    ensures HostAt(HostAdvance(h, from + |bs|, V6End), a, from, bs + [c])
  {
    hide UserinfoChar, AllDigits, HostChar, ZoneChar, IsHexDigit;
    HostMoves(h.s, c);
    assert c == 93;
    assert UserText(a) + ([91] + NameText(a.name) + [93]) == UserText(a) + [91] + NameText(a.name) + [93];
  }

  lemma PortByte(h: HostScan, a: Site, from: nat, bs: seq<Byte>, c: Byte) returns (a': Site)
    requires HostAt(h, a, from, bs) && from + |bs| < MAX_BUFFER
    requires ParseHostChar(h.s, c) == PortStart || ParseHostChar(h.s, c) == Port
    ensures HostAt(HostAdvance(h, from + |bs|, ParseHostChar(h.s, c)), a', from, bs + [c]) && a'.at == a.at
  {
    hide UserinfoChar, HostChar, ZoneChar, IsHexDigit;
    HostMoves(h.s, c);
    if ParseHostChar(h.s, c) == PortStart {
      a' := a;
    } else {
      a' := a.(port := a.port + [c]);
      assert bs + [c] == ServerText(a');
    }
  }

  lemma HostByte(h: HostScan, a: Site, from: nat, bs: seq<Byte>, c: Byte) returns (a': Site)
    requires HostAt(h, a, from, bs) && from + |bs| < MAX_BUFFER && ParseHostChar(h.s, c) != HostDead
    ensures HostAt(HostAdvance(h, from + |bs|, ParseHostChar(h.s, c)), a', from, bs + [c]) && a'.at == a.at
  {
    HostMoves(h.s, c);
    hide HostAt, ParseHostChar, HostAdvance;
    match ParseHostChar(h.s, c)
    case Userinfo => a' := UserByte(h, a, from, bs, c);
    case HostStart => a' := UserByte(h, a, from, bs, c);
    case Host => a' := NameByte(h, a, from, bs, c);
    case V6Start => a' := LiteralByte(h, a, from, bs, c);
    case V6 => a' := LiteralByte(h, a, from, bs, c);
    case ZoneStart => a' := LiteralByte(h, a, from, bs, c);
    case Zone => a' := LiteralByte(h, a, from, bs, c);
    case V6End =>
      LiteralEnds(h, a, from, bs, c);
      a' := a;
    case PortStart => a' := PortByte(h, a, from, bs, c);
    case Port => a' := PortByte(h, a, from, bs, c);
  }

  lemma {:induction false} HostIsAt(buf: seq<Byte>, span: Span, at: bool, n: nat) returns (a: Site)
    requires span.off <= n <= |buf| <= MAX_BUFFER && HostTo(buf, span, at, n).s != HostDead
    ensures HostAt(HostTo(buf, span, at, n), a, span.off, buf[span.off..n]) && a.at == at
    decreases n
  {
    hide HostAt, ParseHostChar, HostAdvance, HostStartAt;
    if n == span.off {
      a := Site(at, [], Plain([]), []);
      HostStartIsAt(span, at);
      assert buf[n..n] == [];
    } else {
      var h := HostTo(buf, span, at, n - 1);
      var a0 := HostIsAt(buf, span, at, n - 1);
      DeadStays(h, n - 1, buf[n - 1]);
      a := HostByte(h, a0, span.off, buf[span.off..n - 1], buf[n - 1]);
      assert buf[span.off..n - 1] + [buf[n - 1]] == buf[span.off..n];
    }
  }

  lemma DeadStays(h: HostScan, p: nat, c: Byte)
    ensures ParseHostChar(h.s, c) == HostDead ==> HostAdvance(h, p, ParseHostChar(h.s, c)).s == HostDead
  {
    hide ParseHostChar;
  }

  lemma HostStartIsAt(span: Span, at: bool)
    ensures HostAt(HostStartAt(span, at), Site(at, [], Plain([]), []), span.off, [])
  {
  }

  /** A host scan that ends well has read a whole authority. */
  lemma HostDoneIs(h: HostScan, a: Site, fields: map<Field, Span>, from: nat, bs: seq<Byte>)
    requires HostAt(h, a, from, bs) && HostDone(h.s)
    ensures ServerOk(a) && bs == ServerText(a) && SplitHost(fields, h) == ServerFields(fields, a, from)
  {
    assert UserText(a) + NameWire(a.name) + [] == UserText(a) + NameWire(a.name);
  }

  // ---------- the whole URL ----------

  /** Where the authority lies at the end of a scan. */
  lemma PartLies(k: Scan, u: Shape, buf: seq<Byte>)
    requires At(k, u, buf)
    ensures ShapeOk(u) && k.fields == FieldsOf(u)
    ensures (UfHost in k.fields <==> u.part != []) && (UfSchema in k.fields <==> u.scheme != [])
    ensures u.part != [] || (u.scheme == [] && !u.connect) ==> buf == Spelled(u)
    ensures u.part != [] ==>
              && k.fields[UfHost] == Span(|Lead(u)|, |u.part|) && |Lead(u)| + |u.part| <= |buf|
              && buf[|Lead(u)|..|Lead(u)| + |u.part|] == u.part
  {
    hide ShapeOk;
    assert UfHost in FieldsOf(u) <==> Len(u, UfHost) > 0;
    assert UfSchema in FieldsOf(u) <==> Len(u, UfSchema) > 0;
    if u.part != [] {
      var rest := u.path + QueryText(u) + Hashes(u.hashes) + u.fragment;
      assert Spelled(u) == Lead(u) + u.part + rest;
      assert (Lead(u) + u.part + rest)[|Lead(u)|..|Lead(u)| + |u.part|] == u.part;
    } else if u.scheme == [] && !u.connect {
      NoScheme(k, u, buf);
    }
  }

  lemma NoScheme(k: Scan, u: Shape, buf: seq<Byte>)
    requires At(k, u, buf) && u.scheme == [] && !u.connect && u.part == []
    ensures buf == Spelled(u)
  {
  }

  /** The keys of a split authority. */
  lemma ServerKeys(u: Shape, a: Site, from: nat)
    requires ServerFields(FieldsOf(u), a, from).Keys == {UfHost, UfPort}
    ensures a.port != [] && a.user == [] && u.path == [] && Len(u, UfQuery) == 0 && u.fragment == []
  {
    var f := ServerFields(FieldsOf(u), a, from);
    assert forall g :: g in f.Keys <==> g == UfHost || g == UfPort;
    assert UfPort in FieldsOf(u) <==> Len(u, UfPort) > 0;
    assert UfPath in FieldsOf(u) <==> Len(u, UfPath) > 0;
    assert UfQuery in FieldsOf(u) <==> Len(u, UfQuery) > 0;
    assert UfFragment in FieldsOf(u) <==> Len(u, UfFragment) > 0;
    assert UfUserinfo !in f && UfPath !in f && UfQuery !in f && UfFragment !in f && UfPort in f;
  }

  /** The converse of splitting what was composed: a URL of at most 65535 bytes that is accepted is put together
      from a scheme and an authority, or neither, a path, a query and a fragment, each of the characters it may
      have, with nothing between them but their delimiters; and its fields are exactly the parts that are not
      empty. The target of a CONNECT is a host and a port. */
  lemma AcceptedIsComposed(buf: seq<Byte>, beyond: seq<Byte>, connect: bool) returns (u: Shape, a: Site)
    requires |buf| <= MAX_BUFFER && ParseUrl(buf, beyond, connect).Some?
    ensures buf == Spelled(u) && ShapeOk(u) && u.connect == connect
    ensures u.part == [] ==> u.scheme == [] && !connect && ParseUrl(buf, beyond, connect).value.fields == FieldsOf(u)
    ensures u.part != [] ==>
              && u.part == ServerText(a) && ServerOk(a)
              && ParseUrl(buf, beyond, connect).value.fields == ServerFields(FieldsOf(u), a, |Lead(u)|)
    ensures connect ==>
              u.part != [] && a.port != [] && a.user == [] && u.path == [] && Len(u, UfQuery) == 0 && u.fragment == []
  {
    hide At, HostAt, ParseUrlChar, ParseHostChar, ShapeOk, ServerOk, FieldsOf, Spelled, HostTo, ScanTo;
    var k := ScanTo(buf, |buf|, connect);
    u := ScanIsAt(buf, |buf|, connect);
    assert buf[..|buf|] == buf;
    PartLies(k, u, buf);
    a := Site(false, [], Plain([]), []);
    if u.part != [] {
      var part := k.fields[UfHost];
      a := HostIsAt(buf, part, k.at, End(part));
      HostDoneIs(HostTo(buf, part, k.at, End(part)), a, k.fields, part.off, buf[part.off..End(part)]);
    }
    if connect {
      if u.part == [] {
        NoPort(u);
      } else {
        ServerKeys(u, a, |Lead(u)|);
      }
    }
  }

  lemma NoPort(u: Shape)
    ensures UfPort !in FieldsOf(u)
  {
  }

  /** @a:1?# */
  const MARKED: seq<Byte> := [64, 97, 58, 49, 63, 35]

  lemma ScanStep(buf: seq<Byte>, n: nat, connect: bool)
    requires n < |buf| && ScanTo(buf, n, connect).s != Dead
    ensures ScanTo(buf, n + 1, connect) == ScanChar(ScanTo(buf, n, connect), n, buf[n])
  {
    hide ScanChar;
  }

  lemma MarkedSteps()
    ensures ScanChar(Start(true), 0, 64) == Scan(ServerWithAt, map[UfHost := Span(0, 1)], Some(UfHost), true)
    ensures ScanChar(Scan(ServerWithAt, map[UfHost := Span(0, 1)], Some(UfHost), true), 1, 97)
         == Scan(UrlState.Server, map[UfHost := Span(0, 2)], Some(UfHost), true)
    ensures ScanChar(Scan(UrlState.Server, map[UfHost := Span(0, 2)], Some(UfHost), true), 2, 58)
         == Scan(UrlState.Server, map[UfHost := Span(0, 3)], Some(UfHost), true)
    ensures ScanChar(Scan(UrlState.Server, map[UfHost := Span(0, 3)], Some(UfHost), true), 3, 49)
         == Scan(UrlState.Server, map[UfHost := Span(0, 4)], Some(UfHost), true)
  {
    assert map[][UfHost := Span(0, 1)] == map[UfHost := Span(0, 1)];
    assert map[UfHost := Span(0, 1)][UfHost := Span(0, 2)] == map[UfHost := Span(0, 2)];
    assert map[UfHost := Span(0, 2)][UfHost := Span(0, 3)] == map[UfHost := Span(0, 3)];
    assert map[UfHost := Span(0, 3)][UfHost := Span(0, 4)] == map[UfHost := Span(0, 4)];
  }

  lemma MarkedEnd()
    ensures ScanChar(Scan(UrlState.Server, map[UfHost := Span(0, 4)], Some(UfHost), true), 4, 63)
         == Scan(QueryStart, map[UfHost := Span(0, 4)], Some(UfHost), true)
    ensures ScanChar(Scan(QueryStart, map[UfHost := Span(0, 4)], Some(UfHost), true), 5, 35)
         == Scan(FragmentStart, map[UfHost := Span(0, 4)], Some(UfHost), true)
  {
  }

  lemma MarkedScanned()
    ensures ScanTo(MARKED, 6, true) == Scan(FragmentStart, map[UfHost := Span(0, 4)], Some(UfHost), true)
  {
    hide ScanTo, ScanChar;
    NothingScanned(MARKED, true);
    MarkedSteps();
    ScanStep(MARKED, 0, true);
    ScanStep(MARKED, 1, true);
    ScanStep(MARKED, 2, true);
    ScanStep(MARKED, 3, true);
    MarkedEnd();
    ScanStep(MARKED, 4, true);
    ScanStep(MARKED, 5, true);
  }

  lemma NothingScanned(buf: seq<Byte>, connect: bool)
    ensures ScanTo(buf, 0, connect) == Start(connect)
  {
  }

  lemma MarkedSplit()
    ensures HostTo(MARKED, Span(0, 4), true, 4) == HostScan(Port, Span(1, 1), None, Some(Span(3, 1)))
  {
    var part := Span(0, 4);
    assert HostTo(MARKED, part, true, 0) == HostStartAt(part, true);
    assert HostTo(MARKED, part, true, 1) == HostScan(HostStart, Span(0, 0), None, None);
    assert HostTo(MARKED, part, true, 2) == HostScan(Host, Span(1, 1), None, None);
    assert HostTo(MARKED, part, true, 3) == HostScan(PortStart, Span(1, 1), None, None);
  }

  /** The target of a CONNECT may have more than a host and a port: an @ in front, a question mark and # behind. */
  lemma ConnectTakesMore()
    ensures ParseUrl(MARKED, [], true) == Some(Url(map[UfHost := Span(1, 1), UfPort := Span(3, 1)], 1))
  {
    hide ScanTo, HostTo;
    MarkedScanned();
    MarkedSplit();
    var fields := map[UfHost := Span(0, 4)][UfHost := Span(1, 1)][UfPort := Span(3, 1)];
    assert fields == map[UfHost := Span(1, 1), UfPort := Span(3, 1)] && fields.Keys == {UfHost, UfPort};
    PortIsOne();
  }

  lemma PortIsOne()
    ensures PortNumber(MARKED, [], 3) == 1
  {
    assert (MARKED + [])[3..] == [49 as Byte] + [63, 35];
    DigitsStop([49], [63, 35]);
    assert [49 as Byte][..0] == [] && DigitValue([49]) == 1;
  }

  // ---------- the characters ----------

  predicate Unreserved(c: Byte) { AlphaNum(c) || c == 45 || c == 46 || c == 95 || c == 126 }

  /** ! $ & ' ( ) * + , ; = */
  predicate SubDelim(c: Byte) { c == 33 || c == 36 || 38 <= c <= 44 || c == 59 || c == 61 }

  /** What section 3 of RFC 3986 lets a path, a query and a fragment have, the percent sign of an escape
      included. */
  predicate PathCharOfRfc(c: Byte) { Unreserved(c) || SubDelim(c) || c == 37 || c == 58 || c == 64 || c == 47 }

  /** The table has these, and of the other visible characters all but # and ?: the quotation mark, the angle
      and square brackets, the backslash, the circumflex, the grave accent, the braces and the bar. */
  lemma CharactersOfRfc(c: Byte)
    ensures UrlChar(c) <==>
              PathCharOfRfc(c) || c == 34 || c == 60 || c == 62 || c == 91 || c == 92 || c == 93 || c == 94 || c == 96
              || c == 123 || c == 124 || c == 125
    ensures UserinfoChar(c) <==> Unreserved(c) || SubDelim(c) || c == 37 || c == 58
    ensures HostChar(c) ==> Unreserved(c)
    ensures ZoneChar(c) <==> Unreserved(c) || c == 37
  {
  }
}
