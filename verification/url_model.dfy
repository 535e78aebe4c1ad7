/** The URL splitter of app/st_wrk/http_parser.c, strict mode: the character machines, the scan that
    turns their states into fields, and what the fields of an accepted URL are (section 3 of RFC 3986). */
module UrlModel {
  import opened Bytes
  import opened Queues

  datatype UrlState =
    | Dead | SpacesBeforeUrl | Schema | SchemaSlash | SchemaSlashSlash | ServerStart | Server | ServerWithAt
    | Path | QueryStart | Query | FragmentStart | Fragment

  datatype HostState =
    | HostDead | UserinfoStart | Userinfo | HostStart | V6Start | Host | V6 | V6End | ZoneStart | Zone
    | PortStart | Port

  predicate Alpha(c: Byte) { 65 <= c <= 90 || 97 <= c <= 122 }


  predicate AlphaNum(c: Byte) { Alpha(c) || IsDigit(c) }

  /** - _ . ! ~ * ' ( ) */
  predicate Mark(c: Byte)
  {
    c == 45 || c == 95 || c == 46 || c == 33 || c == 126 || c == 42 || c == 39 || c == 40 || c == 41
  }

  /** Also % ; : & = + $ and the comma. */
  predicate UserinfoChar(c: Byte)
  {
    AlphaNum(c) || Mark(c) || c == 37 || c == 59 || c == 58 || c == 38 || c == 61 || c == 43 || c == 36 || c == 44
  }

  predicate HostChar(c: Byte) { AlphaNum(c) || c == 46 || c == 45 }

  /** Visible US-ASCII but # and ?. */
  predicate UrlChar(c: Byte) { 33 <= c <= 126 && c != 35 && c != 63 }

  predicate ZoneChar(c: Byte)
  {
    AlphaNum(c) || c == 37 || c == 46 || c == 45 || c == 95 || c == 126
  }

  function ParseUrlChar(s: UrlState, ch: Byte): UrlState
  {
    if ch == 32 || ch == CR || ch == LF || ch == 9 || ch == 12 then Dead
    else
      match s
      case SpacesBeforeUrl => if ch == 47 || ch == 42 then Path else if Alpha(ch) then Schema else Dead
      case Schema => if Alpha(ch) then Schema else if ch == 58 then SchemaSlash else Dead
      case SchemaSlash => if ch == 47 then SchemaSlashSlash else Dead
      case SchemaSlashSlash => if ch == 47 then ServerStart else Dead
      case ServerWithAt => if ch == 64 then Dead else ServerChar(ch)
      case ServerStart => ServerChar(ch)
      case Server => ServerChar(ch)
      case Path => if UrlChar(ch) then Path else if ch == 63 then QueryStart
                   else if ch == 35 then FragmentStart else Dead
      case QueryStart => QueryChar(ch)
      case Query => QueryChar(ch)
      case FragmentStart => if UrlChar(ch) || ch == 63 then Fragment else if ch == 35 then FragmentStart else Dead
      case Fragment => if UrlChar(ch) || ch == 63 || ch == 35 then Fragment else Dead
      case Dead => Dead
  }

  function ServerChar(ch: Byte): UrlState
  {
    if ch == 47 then Path
    else if ch == 63 then QueryStart
    else if ch == 64 then ServerWithAt
    else if UserinfoChar(ch) || ch == 91 || ch == 93 then Server
    else Dead
  }

  function QueryChar(ch: Byte): UrlState
  {
    if UrlChar(ch) || ch == 63 then Query else if ch == 35 then FragmentStart else Dead
  }

  function ParseHostChar(s: HostState, ch: Byte): HostState
  {
    match s
    case UserinfoStart => if ch == 64 then HostStart else if UserinfoChar(ch) then Userinfo else HostDead
    case Userinfo => if ch == 64 then HostStart else if UserinfoChar(ch) then Userinfo else HostDead
    case HostStart => if ch == 91 then V6Start else if HostChar(ch) then Host else HostDead
    case Host => if HostChar(ch) then Host else if ch == 58 then PortStart else HostDead
    case V6End => if ch == 58 then PortStart else HostDead
    case V6 =>
      if ch == 93 then V6End else if IsHexDigit(ch) || ch == 58 || ch == 46 then V6
      else if ch == 37 then ZoneStart else HostDead
    case V6Start => if IsHexDigit(ch) || ch == 58 || ch == 46 then V6 else HostDead
    case Zone => if ch == 93 then V6End else if ZoneChar(ch) then Zone else HostDead
    case ZoneStart => if ZoneChar(ch) then Zone else HostDead
    case Port => if IsDigit(ch) then Port else HostDead
    case PortStart => if IsDigit(ch) then Port else HostDead
    case HostDead => HostDead
  }

  // ---------- fields ----------

  datatype Field = UfSchema | UfHost | UfPort | UfPath | UfQuery | UfFragment | UfUserinfo

  /** struct field_data: both are uint16_t. */
  datatype Span = Span(off: nat, len: nat)

  const MAX_BUFFER: nat := 0xffff

  /** What a uint16_t keeps of a number. */
  function Low16(n: nat): (r: nat)
    ensures r <= n && r <= MAX_BUFFER && (n <= MAX_BUFFER ==> r == n)
  {
    n % 0x1_0000
  }

  function End(s: Span): nat { s.off + s.len }

  /** len++ */
  function Longer(s: Span): Span
  {
    Span(s.off, Low16(s.len + 1))
  }

  /** The place of a field in a URL. */
  function Rank(f: Field): nat
  {
    match f
    case UfSchema => 0
    case UfUserinfo => 1
    case UfHost => 2
    case UfPort => 3
    case UfPath => 4
    case UfQuery => 5
    case UfFragment => 6
  }

  /** The field a state belongs to; the others are delimiters. */
  function FieldOf(s: UrlState): Option<Field>
  {
    match s
    case Schema => Some(UfSchema)
    case Server => Some(UfHost)
    case ServerWithAt => Some(UfHost)
    case Path => Some(UfPath)
    case Query => Some(UfQuery)
    case Fragment => Some(UfFragment)
    case _ => None
  }

  /** The scan over the characters: field_set with field_data, old_uf and found_at. */
  datatype Scan = Scan(s: UrlState, fields: map<Field, Span>, last: Option<Field>, at: bool)

  function Start(isConnect: bool): Scan
  {
    Scan(if isConnect then ServerStart else SpacesBeforeUrl, map[], None, false)
  }

  function ScanChar(k: Scan, p: nat, ch: Byte): Scan
  {
    Advance(k, p, ParseUrlChar(k.s, ch))
  }

  /** The character at p led to state s. */
  function Advance(k: Scan, p: nat, s: UrlState): Scan
  {
    var at := k.at || s == ServerWithAt;
    match FieldOf(s)
    case None => k.(s := s)
    case Some(f) =>
      if k.last == Some(f) && f in k.fields then k.(s := s, at := at, fields := k.fields[f := Longer(k.fields[f])])
      else k.(s := s, at := at, fields := k.fields[f := Span(Low16(p), 1)], last := Some(f))
  }

  /** The scan after n characters, or where it died. */
  function ScanTo(buf: seq<Byte>, n: nat, isConnect: bool): Scan
    requires n <= |buf|
  {
    if n == 0 then Start(isConnect)
    else
      var k := ScanTo(buf, n - 1, isConnect);
      if k.s == Dead then k else ScanChar(k, n - 1, buf[n - 1])
  }

  /** The fields found so far are not empty, lie in front of n, apart from each other, in their order. */
  ghost predicate Orderly(fields: map<Field, Span>, n: nat)
  {
    && (forall f :: f in fields ==> fields[f].len > 0 && End(fields[f]) <= n)
    && (forall f, g :: f in fields && g in fields && Rank(f) < Rank(g) ==> End(fields[f]) <= fields[g].off)
  }

  /** The next field can only be one that comes behind this rank. */
  function Reached(s: UrlState): int
  {
    match s
    case SpacesBeforeUrl => -1
    case ServerStart => 0
    case SchemaSlash => 0
    case SchemaSlashSlash => 0
    case QueryStart => 4
    case FragmentStart => 5
    case _ => if FieldOf(s).Some? then Rank(FieldOf(s).value) else 6
  }

  ghost predicate ScanInv(k: Scan, n: nat)
  {
    && Orderly(k.fields, n) && UfUserinfo !in k.fields && UfPort !in k.fields
    && (forall f :: f in k.fields ==> k.last.Some? && Rank(f) <= Rank(k.last.value) && Rank(f) <= Reached(k.s))
    && (k.last.Some? ==> k.last.value in k.fields)
    && (FieldOf(k.s).Some? ==> k.last == FieldOf(k.s) && End(k.fields[k.last.value]) == n)
    && (FieldOf(k.s).None? ==> forall f :: f in k.fields ==> End(k.fields[f]) < n)
  }

  /** The states only move forward through the fields. */
  lemma Forward(s: UrlState, ch: Byte)
    requires s != Dead && ParseUrlChar(s, ch) != Dead
    ensures var s' := ParseUrlChar(s, ch);
            && Reached(s) <= Reached(s')
            && (FieldOf(s').Some? && FieldOf(s') != FieldOf(s) ==> Reached(s) < Rank(FieldOf(s').value))
  {
  }

  lemma AdvanceKeeps(k: Scan, p: nat, s: UrlState)
    requires p < MAX_BUFFER && ScanInv(k, p) && Reached(k.s) <= Reached(s)
    requires FieldOf(s).Some? && FieldOf(s) != FieldOf(k.s) ==> Reached(k.s) < Rank(FieldOf(s).value)
    ensures ScanInv(Advance(k, p, s), p + 1)
  {
    ReachedField(s);
    hide Reached, Orderly, Rank;
    if FieldOf(s).Some? {
      var f := FieldOf(s).value;
      if k.last == Some(f) {
        FieldGrows(k.fields, f, p);
      } else {
        forall g | g in k.fields
          ensures Rank(g) < Rank(f)
        {
          RankApart(f, g);
        }
        FieldBegins(k.fields, f, p);
      }
    } else {
      OrderlyLater(k.fields, p);
    }
  }

  lemma RankApart(f: Field, g: Field)
    ensures Rank(f) == Rank(g) ==> f == g
  {
  }

  lemma OrderlyLater(fields: map<Field, Span>, p: nat)
    requires Orderly(fields, p)
    ensures Orderly(fields, p + 1) && forall f :: f in fields ==> End(fields[f]) < p + 1
  {
  }

  lemma FieldBegins(fields: map<Field, Span>, f: Field, p: nat)
    requires Orderly(fields, p) && forall g :: g in fields ==> Rank(g) < Rank(f)
    ensures Orderly(fields[f := Span(p, 1)], p + 1)
  {
  }

  lemma FieldGrows(fields: map<Field, Span>, f: Field, p: nat)
    requires Orderly(fields, p) && f in fields && End(fields[f]) == p && forall g :: g in fields ==> Rank(g) <= Rank(f)
    requires p < MAX_BUFFER
    ensures Orderly(fields[f := Longer(fields[f])], p + 1)
  {
  }

  lemma ReachedField(s: UrlState)
    ensures FieldOf(s).Some? ==> Reached(s) == Rank(FieldOf(s).value)
  {
  }

  lemma StartOrderly(isConnect: bool)
    ensures Start(isConnect).s != Dead && ScanInv(Start(isConnect), 0)
  {
  }

  lemma StepKeeps(k: Scan, p: nat, ch: Byte)
    requires p < MAX_BUFFER && k.s != Dead && ScanInv(k, p)
    ensures ScanChar(k, p, ch).s != Dead ==> ScanInv(ScanChar(k, p, ch), p + 1)
  {
    AdvanceState(k, p, ch);
    if ParseUrlChar(k.s, ch) != Dead {
      Forward(k.s, ch);
      hide ParseUrlChar, ScanInv, Reached, Advance;
      AdvanceKeeps(k, p, ParseUrlChar(k.s, ch));
    }
  }

  lemma {:induction false} ScanKeeps(buf: seq<Byte>, n: nat, isConnect: bool)
    requires n <= |buf| && n <= MAX_BUFFER
    ensures var k := ScanTo(buf, n, isConnect); k.s != Dead ==> ScanInv(k, n)
  {
    hide ScanInv, ScanChar, Start;
    StartOrderly(isConnect);
    if n > 0 {
      ScanKeeps(buf, n - 1, isConnect);
      if ScanTo(buf, n - 1, isConnect).s != Dead {
        StepKeeps(ScanTo(buf, n - 1, isConnect), n - 1, buf[n - 1]);
      }
    }
  }

  lemma AdvanceState(k: Scan, p: nat, ch: Byte)
    ensures ScanChar(k, p, ch).s == ParseUrlChar(k.s, ch)
  {
    hide ParseUrlChar;
  }

  // ---------- the host part ----------

  /** The scan of http_parse_host: its state, the host found, the userinfo and the port if any. */
  datatype HostScan = HostScan(s: HostState, host: Span, user: Option<Span>, port: Option<Span>)

  /** The character at p led to state s. */
  function HostAdvance(h: HostScan, p: nat, s: HostState): HostScan
  {
    match s
    case Host => h.(s := s, host := if h.s != Host then Span(Low16(p), Low16(h.host.len + 1)) else Longer(h.host))
    case V6 => h.(s := s, host := if h.s != V6 then Span(Low16(p), Low16(h.host.len + 1)) else Longer(h.host))
    case ZoneStart => h.(s := s, host := Longer(h.host))
    case Zone => h.(s := s, host := Longer(h.host))
    case Port => h.(s := s,
                   port := Some(if h.s != Port || h.port.None? then Span(Low16(p), 1) else Longer(h.port.value)))
    case Userinfo => h.(s := s,
                   user := Some(if h.s != Userinfo || h.user.None? then Span(Low16(p), 1) else Longer(h.user.value)))
    case _ => h.(s := s)
  }

  function HostStartAt(span: Span, at: bool): HostScan
  {
    HostScan(if at then UserinfoStart else HostStart, Span(span.off, 0), None, None)
  }

  /** The scan of the host span up to n, or where it died. */
  function HostTo(buf: seq<Byte>, span: Span, at: bool, n: nat): HostScan
    requires span.off <= n <= |buf|
    decreases n
  {
    if n == span.off then HostStartAt(span, at)
    else
      var h := HostTo(buf, span, at, n - 1);
      if h.s == HostDead then h else HostAdvance(h, n - 1, ParseHostChar(h.s, buf[n - 1]))
  }

  /** http_parse_host ends well in these states only. */
  predicate HostDone(s: HostState)
  {
    s == Host || s == V6End || s == Port
  }

  /** What a span found by the host scan is: inside the host part, not empty, in front of n. */
  ghost predicate Within(s: Span, from: nat, n: nat)
  {
    from <= s.off && s.len > 0 && End(s) <= n
  }

  ghost predicate HostInv(h: HostScan, from: nat, n: nat)
  {
    && (h.user.Some? ==> Within(h.user.value, from, n))
    && (h.s != HostDead ==> (h.port.Some? <==> h.s == Port))
    && match h.s
       case UserinfoStart => h.user.None? && h.host.len == 0
       case Userinfo => h.user.Some? && End(h.user.value) == n && h.host.len == 0
       case HostStart => h.host.len == 0
       case V6Start => h.host.len == 0
       case Host => HostBehindUser(h, from, n) && End(h.host) == n
       case V6 => HostBehindUser(h, from, n) && End(h.host) == n
       case ZoneStart => HostBehindUser(h, from, n) && End(h.host) == n
       case Zone => HostBehindUser(h, from, n) && End(h.host) == n
       case V6End => HostBehindUser(h, from, n)
       case PortStart => HostBehindUser(h, from, n)
       case Port =>
         && HostBehindUser(h, from, n) && Within(h.port.value, from, n) && End(h.port.value) == n
         && End(h.host) <= h.port.value.off
       case HostDead => true
  }

  ghost predicate HostBehindUser(h: HostScan, from: nat, n: nat)
  {
    Within(h.host, from, n) && (h.user.Some? ==> End(h.user.value) <= h.host.off)
  }

  /** Which states lead to which. */
  lemma HostMoves(s: HostState, ch: Byte)
    ensures match ParseHostChar(s, ch)
            case UserinfoStart => false
            case Userinfo => s == UserinfoStart || s == Userinfo
            case HostStart => s == UserinfoStart || s == Userinfo
            case V6Start => s == HostStart
            case Host => s == HostStart || s == Host
            case V6 => s == V6Start || s == V6
            case V6End => s == V6 || s == Zone
            case ZoneStart => s == V6
            case Zone => s == ZoneStart || s == Zone
            case PortStart => s == Host || s == V6End
            case Port => s == PortStart || s == Port
            case HostDead => true
  {
  }

  lemma HostAdvanceKeeps(h: HostScan, from: nat, p: nat, ch: Byte)
    requires HostInv(h, from, p) && from <= p < MAX_BUFFER && h.s != HostDead
    ensures HostInv(HostAdvance(h, p, ParseHostChar(h.s, ch)), from, p + 1)
  {
    hide ParseHostChar;
    HostMoves(h.s, ch);
  }

  lemma {:induction false} HostKeeps(buf: seq<Byte>, span: Span, at: bool, n: nat)
    requires span.off <= n <= |buf| && n <= MAX_BUFFER
    ensures HostTo(buf, span, at, n).s != HostDead ==> HostInv(HostTo(buf, span, at, n), span.off, n)
    decreases n
  {
    hide HostInv, ParseHostChar, HostAdvance, HostStartAt;
    if n > span.off {
      HostKeeps(buf, span, at, n - 1);
      var h := HostTo(buf, span, at, n - 1);
      if h.s != HostDead {
        HostAdvanceKeeps(h, span.off, n - 1, buf[n - 1]);
      }
    } else {
      NoHostRead(span, at);
    }
  }

  lemma NoHostRead(span: Span, at: bool)
    ensures HostInv(HostStartAt(span, at), span.off, span.off)
  {
  }

  /** The fields once the host part is split. */
  function SplitHost(fields: map<Field, Span>, h: HostScan): map<Field, Span>
  {
    var f1 := fields[UfHost := h.host];
    var f2 := if h.port.Some? then f1[UfPort := h.port.value] else f1;
    if h.user.Some? then f2[UfUserinfo := h.user.value] else f2
  }

  /** A field put at its place between the others. */
  lemma FieldFits(fields: map<Field, Span>, f: Field, span: Span, n: nat)
    requires Orderly(fields, n) && span.len > 0 && End(span) <= n
    requires forall g :: g in fields && Rank(g) < Rank(f) ==> End(fields[g]) <= span.off
    requires forall g :: g in fields && Rank(f) < Rank(g) ==> End(span) <= fields[g].off
    ensures Orderly(fields[f := span], n)
  {
  }

  /** Userinfo, host and port lie in the host part, not empty, in this order. */
  ghost predicate HostFound(h: HostScan, part: Span)
  {
    && Within(h.host, part.off, End(part))
    && (h.user.Some? ==> Within(h.user.value, part.off, End(part)) && End(h.user.value) <= h.host.off)
    && (h.port.Some? ==> Within(h.port.value, part.off, End(part)) && End(h.host) <= h.port.value.off)
  }

  lemma DoneIsFound(h: HostScan, part: Span)
    requires HostDone(h.s) && HostInv(h, part.off, End(part))
    ensures HostFound(h, part) && (h.port.Some? ==> End(h.port.value) == End(part))
  {
  }

  /** Splitting the host part keeps the fields in order. */
  lemma SplitKeepsOrder(fields: map<Field, Span>, h: HostScan, n: nat)
    requires Orderly(fields, n) && UfHost in fields && UfUserinfo !in fields && UfPort !in fields
    requires HostFound(h, fields[UfHost])
    ensures Orderly(SplitHost(fields, h), n)
  {
    var part := fields[UfHost];
    var f1 := fields[UfHost := h.host];
    FieldFits(fields, UfHost, h.host, n);
    var f2 := f1;
    if h.port.Some? {
      f2 := f1[UfPort := h.port.value];
      PortFits(fields, h, n);
    }
    if h.user.Some? {
      UserFits(fields, h, f2, n);
    }
  }

  lemma PortFits(fields: map<Field, Span>, h: HostScan, n: nat)
    requires Orderly(fields, n) && UfHost in fields && UfPort !in fields && UfUserinfo !in fields
    requires HostFound(h, fields[UfHost]) && h.port.Some? && Orderly(fields[UfHost := h.host], n)
    ensures Orderly(fields[UfHost := h.host][UfPort := h.port.value], n)
  {
    FieldFits(fields[UfHost := h.host], UfPort, h.port.value, n);
  }

  lemma UserFits(fields: map<Field, Span>, h: HostScan, f2: map<Field, Span>, n: nat)
    requires Orderly(fields, n) && UfHost in fields && UfPort !in fields && UfUserinfo !in fields
    requires HostFound(h, fields[UfHost]) && h.user.Some? && Orderly(f2, n)
    requires f2 == if h.port.Some? then fields[UfHost := h.host][UfPort := h.port.value] else fields[UfHost := h.host]
    ensures Orderly(f2[UfUserinfo := h.user.value], n)
  {
    FieldFits(f2, UfUserinfo, h.user.value, n);
  }

  // ---------- the whole URL ----------

  /** strtoul on what lies in memory from the first port digit on; that is past the buffer, too. */
  function PortNumber(buf: seq<Byte>, beyond: seq<Byte>, off: nat): nat
    requires off <= |buf|
  {
    DigitValue(Digits((buf + beyond)[off..]))
  }

  datatype Url = Url(fields: map<Field, Span>, port: nat)

  function SplitAt(buf: seq<Byte>, k: Scan): Option<map<Field, Span>>
    requires UfHost in k.fields ==> End(k.fields[UfHost]) <= |buf|
  {
    if UfSchema in k.fields && UfHost !in k.fields then None
    else if UfHost !in k.fields then Some(k.fields)
    else
      var h := HostTo(buf, k.fields[UfHost], k.at, End(k.fields[UfHost]));
      if HostDone(h.s) then Some(SplitHost(k.fields, h)) else None
  }

  /** Whatever is cut off, no field reaches behind the characters read. */
  lemma {:induction false} ScanInside(buf: seq<Byte>, n: nat, isConnect: bool)
    requires n <= |buf|
    ensures forall f :: f in ScanTo(buf, n, isConnect).fields ==> End(ScanTo(buf, n, isConnect).fields[f]) <= n
  {
    hide ParseUrlChar;
    if n > 0 {
      ScanInside(buf, n - 1, isConnect);
    }
  }

  /** Userinfo and port come from the host part only. */
  lemma {:induction false} ScanHasNoPort(buf: seq<Byte>, n: nat, isConnect: bool)
    requires n <= |buf|
    ensures UfUserinfo !in ScanTo(buf, n, isConnect).fields && UfPort !in ScanTo(buf, n, isConnect).fields
  {
    hide ParseUrlChar;
    if n > 0 {
      ScanHasNoPort(buf, n - 1, isConnect);
    }
  }

  lemma {:induction false} HostInside(buf: seq<Byte>, span: Span, at: bool, n: nat)
    requires span.off <= n <= |buf|
    ensures var h := HostTo(buf, span, at, n); h.port.Some? ==> h.port.value.off <= n
    decreases n
  {
    hide ParseHostChar;
    if n > span.off {
      HostInside(buf, span, at, n - 1);
    }
  }

  lemma PortInside(buf: seq<Byte>, isConnect: bool)
    ensures var k := ScanTo(buf, |buf|, isConnect);
            && (UfHost in k.fields ==> End(k.fields[UfHost]) <= |buf|)
            && (SplitAt(buf, k).Some? && UfPort in SplitAt(buf, k).value ==> SplitAt(buf, k).value[UfPort].off <= |buf|)
  {
    var k := ScanTo(buf, |buf|, isConnect);
    ScanInside(buf, |buf|, isConnect);
    if UfHost in k.fields {
      HostInside(buf, k.fields[UfHost], k.at, End(k.fields[UfHost]));
    }
    hide ScanTo, HostTo;
  }

  /** http_parser_parse_url of buf, with the bytes that lie behind it. */
  function ParseUrl(buf: seq<Byte>, beyond: seq<Byte>, isConnect: bool): Option<Url>
  {
    PortInside(buf, isConnect);
    var k := ScanTo(buf, |buf|, isConnect);
    if k.s == Dead then None
    else
      match SplitAt(buf, k)
      case None => None
      case Some(fields) =>
        if isConnect && fields.Keys != {UfHost, UfPort} then None
        else if UfPort !in fields then Some(Url(fields, 0))
        else
          var v := PortNumber(buf, beyond, fields[UfPort].off);
          if v > 0xffff then None else Some(Url(fields, v))
  }

  lemma SplitInside(buf: seq<Byte>, k: Scan, isConnect: bool)
    requires |buf| <= MAX_BUFFER && k == ScanTo(buf, |buf|, isConnect) && k.s != Dead
    ensures ScanInv(k, |buf|)
    ensures SplitAt(buf, k).Some? ==> Orderly(SplitAt(buf, k).value, |buf|)
  {
    ScanKeeps(buf, |buf|, isConnect);
    if UfHost in k.fields {
      var part := k.fields[UfHost];
      HostKeeps(buf, part, k.at, End(part));
      var h := HostTo(buf, part, k.at, End(part));
      hide HostTo, ScanTo;
      if HostDone(h.s) {
        DoneIsFound(h, part);
        SplitKeepsOrder(k.fields, h, |buf|);
      }
    }
  }

  /** Every field of an accepted URL of at most 65535 bytes is not empty and lies inside it, and the fields
      are disjoint and in the order scheme, userinfo, host, port, path, query, fragment. */
  lemma FieldsInOrder(buf: seq<Byte>, beyond: seq<Byte>, isConnect: bool)
    requires |buf| <= MAX_BUFFER
    ensures ParseUrl(buf, beyond, isConnect).Some? ==> Orderly(ParseUrl(buf, beyond, isConnect).value.fields, |buf|)
  {
    var k := ScanTo(buf, |buf|, isConnect);
    if k.s != Dead {
      SplitInside(buf, k, isConnect);
    }
  }

  /** A path of 65536 slashes, and a query behind it when there is room. */
  function TooLong(n: nat): (s: seq<Byte>)
    requires n > MAX_BUFFER
    ensures |s| == n && forall i :: 0 <= i < n ==> s[i] == if i == MAX_BUFFER + 1 then 63 else 47
  {
    seq(n, i => if i == MAX_BUFFER + 1 then 63 else 47)
  }

  lemma PathStep(k: Scan, p: nat)
    requires k.s == Path && k.last == Some(UfPath) && UfPath in k.fields
    ensures ScanChar(k, p, 47) == k.(fields := k.fields[UfPath := Longer(k.fields[UfPath])])
  {
  }

  lemma {:induction false} PathOfSlashes(buf: seq<Byte>, n: nat)
    requires 0 < n <= |buf| && forall i :: 0 <= i < n ==> buf[i] == 47
    ensures ScanTo(buf, n, false) == Scan(Path, map[UfPath := Span(0, Low16(n))], Some(UfPath), false)
    decreases n
  {
    hide ScanChar;
    if n == 1 {
      FirstSlash(buf);
    } else {
      PathOfSlashes(buf, n - 1);
      PathStep(ScanTo(buf, n - 1, false), n - 1);
      SetAgain(UfPath, Span(0, Low16(n - 1)), Span(0, Low16(n)));
    }
  }

  lemma FirstSlash(buf: seq<Byte>)
    requires buf != [] && buf[0] == 47
    ensures ScanTo(buf, 1, false) == Scan(Path, map[UfPath := Span(0, 1)], Some(UfPath), false)
  {
    assert ScanTo(buf, 0, false) == Start(false);
    assert ParseUrlChar(SpacesBeforeUrl, 47) == Path;
    hide ParseUrlChar;
  }

  lemma SetAgain(f: Field, x: Span, y: Span)
    ensures map[f := x][f := y] == map[f := y]
  {
  }

  /** The path is set and empty, there is no host, and the scan lives. */
  ghost predicate EmptyPath(k: Scan)
  {
    && k.s != Dead && k.fields.Keys <= {UfPath, UfQuery} && UfPath in k.fields && k.fields[UfPath] == Span(0, 0)
    && (k.s == Path || k.s == QueryStart || k.s == Query)
  }

  lemma EmptyPathStep(k: Scan, p: nat, ch: Byte)
    requires EmptyPath(k) && (if k.s == Path then ch == 63 else ch == 47)
    ensures EmptyPath(ScanChar(k, p, ch)) && ScanChar(k, p, ch).s != Path
  {
  }

  lemma {:induction false} QueryOfSlashes(buf: seq<Byte>, n: nat)
    requires MAX_BUFFER < n <= |buf| && buf == TooLong(|buf|)
    ensures EmptyPath(ScanTo(buf, n, false)) && (n > MAX_BUFFER + 1 <==> ScanTo(buf, n, false).s != Path)
    decreases n
  {
    hide ScanChar;
    if n == MAX_BUFFER + 1 {
      PathOfSlashes(buf, n);
    } else {
      QueryOfSlashes(buf, n - 1);
      EmptyPathStep(ScanTo(buf, n - 1, false), n - 1, buf[n - 1]);
    }
  }

  lemma TooLongIsAccepted(n: nat, beyond: seq<Byte>)
    requires n > MAX_BUFFER
    ensures ParseUrl(TooLong(n), beyond, false).Some?
    ensures !Orderly(ParseUrl(TooLong(n), beyond, false).value.fields, n)
  {
    hide ScanTo;
    var buf := TooLong(n);
    QueryOfSlashes(buf, n);
    var k := ScanTo(buf, n, false);
    assert UfHost !in k.fields && UfSchema !in k.fields && UfPort !in k.fields;
    assert SplitAt(buf, k) == Some(k.fields);
  }

  /** The lengths are kept in 16 bits: the fields of every accepted URL of n bytes are in order exactly
      when n is at most 65535. */
  lemma SizeLimit(n: nat)
    ensures (forall buf: seq<Byte>, beyond: seq<Byte> :: |buf| == n && ParseUrl(buf, beyond, false).Some? ==>
              Orderly(ParseUrl(buf, beyond, false).value.fields, n))
            <==> n <= MAX_BUFFER
  {
    hide ParseUrl, Orderly;
    if n <= MAX_BUFFER {
      forall buf: seq<Byte>, beyond: seq<Byte> | |buf| == n
        ensures ParseUrl(buf, beyond, false).Some? ==> Orderly(ParseUrl(buf, beyond, false).value.fields, n)
      {
        FieldsInOrder(buf, beyond, false);
      }
    } else {
      TooLongIsAccepted(n, []);
    }
  }

  // ---------- the port ----------

  /** The bytes of a field. */
  function Text(buf: seq<Byte>, s: Span): seq<Byte>
    requires End(s) <= |buf|
  {
    buf[s.off..End(s)]
  }

  ghost predicate AllDigits(d: seq<Byte>)
  {
    forall i :: 0 <= i < |d| ==> IsDigit(d[i])
  }

  ghost predicate PortIsRead(buf: seq<Byte>, h: HostScan, n: nat)
    requires n <= |buf|
  {
    h.s == Port ==> h.port.Some? && End(h.port.value) == n && AllDigits(Text(buf, h.port.value))
  }

  lemma PortStep(buf: seq<Byte>, h: HostScan, n: nat)
    requires n < |buf| && n < MAX_BUFFER && PortIsRead(buf, h, n)
    ensures PortIsRead(buf, HostAdvance(h, n, ParseHostChar(h.s, buf[n])), n + 1)
  {
    OnlyDigits(h.s, buf[n]);
    AdvanceHostState(h, n, buf[n]);
    hide ParseHostChar, Text;
    if h.s == Port {
      TextGrows(buf, h.port.value);
    } else {
      OneChar(buf, n);
    }
  }

  lemma {:induction false} PortIsDigits(buf: seq<Byte>, part: Span, at: bool, n: nat)
    requires part.off <= n <= |buf| && n <= MAX_BUFFER
    ensures PortIsRead(buf, HostTo(buf, part, at, n), n)
    decreases n
  {
    if n > part.off {
      PortIsDigits(buf, part, at, n - 1);
      var h := HostTo(buf, part, at, n - 1);
      hide ParseHostChar, PortIsRead, HostAdvance;
      if h.s != HostDead {
        PortStep(buf, h, n - 1);
      } else {
        DeadHasNoPort(buf, h, n);
      }
    }
  }

  lemma DeadHasNoPort(buf: seq<Byte>, h: HostScan, n: nat)
    requires h.s == HostDead && n <= |buf|
    ensures PortIsRead(buf, h, n)
  {
  }

  lemma AdvanceHostState(h: HostScan, p: nat, ch: Byte)
    ensures HostAdvance(h, p, ParseHostChar(h.s, ch)).s == ParseHostChar(h.s, ch)
  {
    hide ParseHostChar;
  }

  lemma TextGrows(buf: seq<Byte>, s: Span)
    requires End(s) < |buf| && End(s) < MAX_BUFFER
    ensures Text(buf, Longer(s)) == Text(buf, s) + [buf[End(s)]]
  {
  }

  lemma OneChar(buf: seq<Byte>, p: nat)
    requires p < |buf|
    ensures Text(buf, Span(p, 1)) == [buf[p]]
  {
  }

  lemma OnlyDigits(s: HostState, ch: Byte)
    ensures ParseHostChar(s, ch) == Port ==> IsDigit(ch)
  {
  }

  /** The host part is followed by a slash or a question mark, or by nothing. */
  ghost predicate HostStops(buf: seq<Byte>, k: Scan, n: nat)
    requires n <= |buf|
  {
    UfHost in k.fields && End(k.fields[UfHost]) < n ==>
      buf[End(k.fields[UfHost])] == 47 || buf[End(k.fields[UfHost])] == 63
  }

  lemma StopChars(s: UrlState, ch: Byte)
    requires s == Server || s == ServerWithAt
    ensures var s' := ParseUrlChar(s, ch); s' == Server || s' == ServerWithAt || s' == Dead || ch == 47 || ch == 63
  {
  }

  lemma {:induction false} HostIsFollowed(buf: seq<Byte>, n: nat, isConnect: bool)
    requires n <= |buf| && n <= MAX_BUFFER
    ensures var k := ScanTo(buf, n, isConnect); k.s != Dead ==> HostStops(buf, k, n)
  {
    hide ScanChar, HostStops, ScanInv;
    if n > 0 {
      HostIsFollowed(buf, n - 1, isConnect);
      ScanKeeps(buf, n - 1, isConnect);
      if ScanTo(buf, n - 1, isConnect).s != Dead {
        HostStep1(buf, ScanTo(buf, n - 1, isConnect), n);
      }
    } else {
      NoHostYet(buf, isConnect);
    }
  }

  lemma NoHostYet(buf: seq<Byte>, isConnect: bool)
    ensures HostStops(buf, Start(isConnect), 0)
  {
  }

  lemma HostStep1(buf: seq<Byte>, k: Scan, n: nat)
    requires 0 < n <= |buf| && n <= MAX_BUFFER && k.s != Dead && HostStops(buf, k, n - 1) && ScanInv(k, n - 1)
    ensures var k' := ScanChar(k, n - 1, buf[n - 1]); k'.s != Dead ==> HostStops(buf, k', n)
  {
    hide Orderly, HostStops, Advance;
    var s := ParseUrlChar(k.s, buf[n - 1]);
    AdvanceState(k, n - 1, buf[n - 1]);
    if s != Dead {
      Forward(k.s, buf[n - 1]);
      if k.s == Server || k.s == ServerWithAt {
        StopChars(k.s, buf[n - 1]);
      }
      HostStaysFollowed(buf, k, n, s);
    }
  }

  lemma HostStaysFollowed(buf: seq<Byte>, k: Scan, n: nat, s: UrlState)
    requires 0 < n <= |buf| && n <= MAX_BUFFER && HostStops(buf, k, n - 1) && ScanInv(k, n - 1)
    requires FieldOf(s).Some? && FieldOf(s) != FieldOf(k.s) ==> Reached(k.s) < Rank(FieldOf(s).value)
    requires k.s == Server || k.s == ServerWithAt ==>
               s == Server || s == ServerWithAt || buf[n - 1] == 47 || buf[n - 1] == 63
    ensures HostStops(buf, Advance(k, n - 1, s), n)
  {
  }

  /** A port found is digits, and what follows it in the buffer is none. */
  ghost predicate PortFound(buf: seq<Byte>, port: Span)
  {
    && port.len > 0 && End(port) <= |buf| && AllDigits(Text(buf, port))
    && (End(port) < |buf| ==> buf[End(port)] == 47 || buf[End(port)] == 63)
  }

  lemma PortIsFound(buf: seq<Byte>, isConnect: bool)
    requires |buf| <= MAX_BUFFER
    ensures var k := ScanTo(buf, |buf|, isConnect);
            && (UfHost in k.fields ==> End(k.fields[UfHost]) <= |buf|)
            && (k.s != Dead && SplitAt(buf, k).Some? && UfPort in SplitAt(buf, k).value ==>
                 PortFound(buf, SplitAt(buf, k).value[UfPort]))
  {
    PortInside(buf, isConnect);
    var k := ScanTo(buf, |buf|, isConnect);
    if k.s != Dead {
      SplitInside(buf, k, isConnect);
      ScanHasNoPort(buf, |buf|, isConnect);
      if UfHost in k.fields {
        var part := k.fields[UfHost];
        HostKeeps(buf, part, k.at, End(part));
        PortIsDigits(buf, part, k.at, End(part));
        HostIsFollowed(buf, |buf|, isConnect);
        var h := HostTo(buf, part, k.at, End(part));
        hide HostTo, ScanTo, Orderly;
        if HostDone(h.s) {
          DoneIsFound(h, part);
        }
      }
    }
  }

  /** The port of an accepted URL is the number its digits spell, together with digits that lie behind the
      buffer when it ends with the port; so it is the number its own digits spell exactly when the buffer
      does not end with the port, or no digit lies behind it, or all of them are zero. */
  lemma PortValue(buf: seq<Byte>, beyond: seq<Byte>, isConnect: bool)
    requires |buf| <= MAX_BUFFER && ParseUrl(buf, beyond, isConnect).Some?
    ensures var url := ParseUrl(buf, beyond, isConnect).value;
            if UfPort !in url.fields then url.port == 0
            else
              && End(url.fields[UfPort]) <= |buf| && AllDigits(Text(buf, url.fields[UfPort])) && url.port <= 0xffff
              && var own := DigitValue(Text(buf, url.fields[UfPort]));
                 var more := if End(url.fields[UfPort]) == |buf| then Digits(beyond) else [];
                 && url.port == DigitValue(Text(buf, url.fields[UfPort]) + more)
                 && (url.port == own <==> more == [] || (own == 0 && DigitValue(more) == 0))
  {
    hide ScanTo, SplitAt, Orderly, Text, AllDigits;
    PortIsFound(buf, isConnect);
    var fields := ParseUrl(buf, beyond, isConnect).value.fields;
    if UfPort in fields {
      PortDigits(buf, beyond, fields[UfPort]);
    }
  }

  /** strtoul stops where the digits do. */
  lemma PortDigits(buf: seq<Byte>, beyond: seq<Byte>, port: Span)
    requires port.len > 0 && End(port) <= |buf| && AllDigits(Text(buf, port))
    requires End(port) < |buf| ==> buf[End(port)] == 47 || buf[End(port)] == 63
    ensures var more := if End(port) == |buf| then Digits(beyond) else [];
            && PortNumber(buf, beyond, port.off) == DigitValue(Text(buf, port) + more)
            && (DigitValue(Text(buf, port) + more) == DigitValue(Text(buf, port))
                <==> more == [] || (DigitValue(Text(buf, port)) == 0 && DigitValue(more) == 0))
  {
    var t := Text(buf, port);
    var tail := (buf + beyond)[End(port)..];
    assert (buf + beyond)[port.off..] == t + tail;
    if End(port) == |buf| {
      assert tail == beyond;
    }
    DigitsJoin(t, tail);
    assert End(port) < |buf| ==> Digits(tail) == [];
    ValueJoins(t, if End(port) == |buf| then Digits(beyond) else []);
  }

  lemma {:induction false} DigitsJoin(d: seq<Byte>, t: seq<Byte>)
    requires AllDigits(d)
    ensures Digits(d + t) == d + Digits(t)
  {
    if d == [] {
      assert d + t == t;
    } else {
      assert (d + t)[0] == d[0] && (d + t)[1..] == d[1..] + t;
      DigitsJoin(d[1..], t);
    }
  }

  /** More digits give another number, unless there are none or all is zero. */
  lemma {:induction false} ValueJoins(d: seq<Byte>, more: seq<Byte>)
    requires AllDigits(d) && AllDigits(more) && d != []
    ensures AllDigits(d + more)
    ensures DigitValue(d + more) >= DigitValue(d)
    ensures DigitValue(d + more) == DigitValue(d) <==> more == [] || (DigitValue(d) == 0 && DigitValue(more) == 0)
    decreases |more|
  {
    if more == [] {
      assert d + more == d;
    } else {
      var init, c := more[..|more| - 1], more[|more| - 1];
      assert (d + more)[..|d + more| - 1] == d + init && (d + more)[|d + more| - 1] == c;
      ValueJoins(d, init);
      assert IsDigit(c);
      if init == [] {
        assert DigitValue(init) == 0;
      }
    }
  }
}
