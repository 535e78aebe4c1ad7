/** http_parser_parse_url and http_parse_host of app/st_wrk/http_parser.c as loops that update the url
    record in place, each proved to compute the splitter of UrlModel. */
module UrlParser {
  import opened Bytes
  import opened Queues
  import opened UrlModel

  /** struct http_parser_url; field_set and field_data are one map. */
  class HttpParserUrl {
    var fields: map<Field, Span>
    var port: nat

    constructor ()
      ensures fields == map[] && port == 0
    {
      fields, port := map[], 0;
    }

    /** u->field_data[f].len++ */
    method Lengthen(f: Field)
      requires f in fields
      modifies `fields
      ensures fields == old(fields)[f := Longer(old(fields)[f])]
    {
      fields := fields[f := Span(fields[f].off, Low16(fields[f].len + 1))];
    }

    /** Opens the field at p, or makes it longer when the state was the same before. */
    method OpenOrLengthen(f: Field, p: nat, same: bool)
      modifies `fields
      ensures fields == old(fields)[f := if same && f in old(fields) then Longer(old(fields)[f]) else Span(Low16(p), 1)]
    {
      if same && f in fields {
        Lengthen(f);
      } else {
        fields := fields[f := Span(Low16(p), 0)];
        Lengthen(f);
      }
    }

    /** The field updates of one character of the host part that leads from s to s'. */
    method HostField(ghost f0: map<Field, Span>, ghost h: HostScan, s: HostState, s': HostState, p: nat)
      requires UfUserinfo !in f0 && UfPort !in f0 && HostSplitAs(fields, f0, h) && h.s == s
      modifies `fields
      ensures HostSplitAs(fields, f0, HostAdvance(h, p, s'))
    {
      hide SplitHost, Low16;
      SplitFields(f0, h);
      match s'
      case Host =>
        if s != Host {
          fields := fields[UfHost := Span(Low16(p), fields[UfHost].len)];
        }
        Lengthen(UfHost);
      case V6 =>
        if s != V6 {
          fields := fields[UfHost := Span(Low16(p), fields[UfHost].len)];
        }
        Lengthen(UfHost);
      case ZoneStart => Lengthen(UfHost);
      case Zone => Lengthen(UfHost);
      case Port => OpenOrLengthen(UfPort, p, s == Port);
      case Userinfo => OpenOrLengthen(UfUserinfo, p, s == Userinfo);
      case _ =>
    }

    /** http_parse_host: splits the host field in place, or fails. */
    method ParseHost(buf: seq<Byte>, foundAt: bool) returns (failed: bool)
      requires UfHost in fields && UfUserinfo !in fields && UfPort !in fields && End(fields[UfHost]) <= |buf|
      modifies `fields
      ensures HostParsed(buf, old(fields), foundAt, fields, failed)
    {
      hide *;
      ghost var f0 := fields;
      var part := fields[UfHost];
      fields := fields[UfHost := Span(part.off, 0)];
      var s := if foundAt then UserinfoStart else HostStart;
      var p, end := part.off, part.off + part.len;
      HostBegun(f0, buf, part, foundAt);
      while p < end
        invariant part.off <= p <= end == End(part) && s != HostDead
        invariant s == HostTo(buf, part, foundAt, p).s && HostSplitAs(fields, f0, HostTo(buf, part, foundAt, p))
      {
        var s' := ParseHostChar(s, buf[p]);
        HostStep(buf, part, foundAt, p);
        if s' == HostDead {
          HostFails(buf, f0, foundAt, fields, p + 1);
          return true;
        }
        HostField(f0, HostTo(buf, part, foundAt, p), s, s', p);
        s := s';
        p := p + 1;
      }
      HostEnds(buf, f0, foundAt, fields, s);
      return !HostDone(s);
    }

    /** The field updates of the character at p, which led to state s'. */
    method UrlField(ghost k: Scan, s': UrlState, p: nat, last: Option<Field>, at: bool)
      returns (last': Option<Field>, at': bool)
      requires k.fields == fields && k.last == last && k.at == at
      modifies `fields
      ensures Advance(k, p, s') == Scan(s', fields, last', at')
    {
      at' := at || s' == ServerWithAt;
      last' := last;
      var uf := FieldOf(s');
      if uf.Some? {
        OpenOrLengthen(uf.value, p, last == uf);
        last' := uf;
      }
    }

    /** The loop of http_parser_parse_url over the characters. */
    method ScanUrl(buf: seq<Byte>, isConnect: bool) returns (failed: bool, foundAt: bool)
      requires fields == map[]
      modifies `fields
      ensures var k := ScanTo(buf, |buf|, isConnect);
              && (failed <==> k.s == Dead)
              && (!failed ==> fields == k.fields && foundAt == k.at)
    {
      var s := if isConnect then ServerStart else SpacesBeforeUrl;
      var last: Option<Field> := None;
      foundAt := false;
      var p := 0;
      hide ScanTo, ParseUrlChar, Advance;
      ScanBegun(buf, isConnect);
      while p < |buf|
        invariant p <= |buf| && s != Dead
        invariant ScanTo(buf, p, isConnect) == Scan(s, fields, last, foundAt)
      {
        ghost var k := ScanTo(buf, p, isConnect);
        ScanStep(buf, p, isConnect);
        s := ParseUrlChar(s, buf[p]);
        if s == Dead {
          DeadScan(buf, p + 1, |buf|, isConnect);
          return true, foundAt;
        }
        last, foundAt := UrlField(k, s, p, last, foundAt);
        p := p + 1;
      }
      return false, foundAt;
    }

    /** http_parser_parse_url; beyond are the bytes that lie behind the buffer in memory. */
    method ParseUrl(buf: seq<Byte>, beyond: seq<Byte>, isConnect: bool) returns (failed: bool)
      modifies this
      ensures failed <==> UrlModel.ParseUrl(buf, beyond, isConnect).None?
      ensures !failed ==> UrlModel.ParseUrl(buf, beyond, isConnect) == Some(Url(fields, port))
    {
      hide ScanTo, HostTo, SplitHost, PortNumber;
      fields, port := map[], 0;
      var foundAt;
      failed, foundAt := ScanUrl(buf, isConnect);
      if failed {
        return true;
      }
      ghost var k := ScanTo(buf, |buf|, isConnect);
      ScanHasNoPort(buf, |buf|, isConnect);
      PortInside(buf, isConnect);
      if UfSchema in fields && UfHost !in fields {
        return true;
      }
      if UfHost in fields {
        failed := ParseHost(buf, foundAt);
        if failed {
          return true;
        }
      }
      assert SplitAt(buf, k) == Some(fields);
      hide SplitAt, ScanInv;
      if isConnect && fields.Keys != {UfHost, UfPort} {
        return true;
      }
      if UfPort in fields {
        var v := PortNumber(buf, beyond, fields[UfPort].off);
        if v > 0xffff {
          return true;
        }
        port := v;
      }
      return false;
    }
  }

  /** The fields of the host scan are updated one by one. */
  lemma SplitFields(f0: map<Field, Span>, h: HostScan)
    requires UfUserinfo !in f0 && UfPort !in f0
    ensures var f := SplitHost(f0, h);
            && UfHost in f && f[UfHost] == h.host
            && (UfPort in f <==> h.port.Some?) && (UfPort in f ==> f[UfPort] == h.port.value)
            && (UfUserinfo in f <==> h.user.Some?) && (UfUserinfo in f ==> f[UfUserinfo] == h.user.value)
    ensures forall s, x :: SplitHost(f0, h)[UfHost := x] == SplitHost(f0, h.(s := s, host := x))
    ensures forall s, x :: SplitHost(f0, h)[UfPort := x] == SplitHost(f0, h.(s := s, port := Some(x)))
    ensures forall s, x :: SplitHost(f0, h)[UfUserinfo := x] == SplitHost(f0, h.(s := s, user := Some(x)))
    ensures forall s :: SplitHost(f0, h.(s := s)) == SplitHost(f0, h)
  {
  }

  /** The fields with the host part split as far as h got. */
  ghost predicate HostSplitAs(fields: map<Field, Span>, f0: map<Field, Span>, h: HostScan)
  {
    fields == SplitHost(f0, h)
  }

  /** What http_parse_host promises: it fails exactly where the host scan does not end well, and else
      leaves the host part split. */
  ghost predicate HostParsed(buf: seq<Byte>, f0: map<Field, Span>, at: bool, fields: map<Field, Span>, failed: bool)
    requires UfHost in f0 && End(f0[UfHost]) <= |buf|
  {
    var h := HostTo(buf, f0[UfHost], at, End(f0[UfHost]));
    (failed <==> !HostDone(h.s)) && (!failed ==> fields == SplitHost(f0, h))
  }

  lemma HostFails(buf: seq<Byte>, f0: map<Field, Span>, at: bool, fields: map<Field, Span>, n: nat)
    requires UfHost in f0 && f0[UfHost].off <= n <= End(f0[UfHost]) <= |buf|
    requires HostTo(buf, f0[UfHost], at, n).s == HostDead
    ensures HostParsed(buf, f0, at, fields, true)
  {
    DeadHost(buf, f0[UfHost], at, n, End(f0[UfHost]));
    hide HostTo;
  }

  lemma HostEnds(buf: seq<Byte>, f0: map<Field, Span>, at: bool, fields: map<Field, Span>, s: HostState)
    requires UfHost in f0 && End(f0[UfHost]) <= |buf|
    requires s == HostTo(buf, f0[UfHost], at, End(f0[UfHost])).s
    requires HostSplitAs(fields, f0, HostTo(buf, f0[UfHost], at, End(f0[UfHost])))
    ensures HostParsed(buf, f0, at, fields, !HostDone(s))
  {
    hide HostTo;
  }

  lemma ScanBegun(buf: seq<Byte>, isConnect: bool)
    ensures ScanTo(buf, 0, isConnect) == Start(isConnect)
  {
  }

  lemma ScanStep(buf: seq<Byte>, p: nat, isConnect: bool)
    requires p < |buf| && ScanTo(buf, p, isConnect).s != Dead
    ensures var k := ScanTo(buf, p, isConnect);
            var s' := ParseUrlChar(k.s, buf[p]);
            ScanTo(buf, p + 1, isConnect) == Advance(k, p, s') && ScanTo(buf, p + 1, isConnect).s == s'
  {
    AdvanceState(ScanTo(buf, p, isConnect), p, buf[p]);
    hide ParseUrlChar, Advance;
  }

  lemma HostBegun(f0: map<Field, Span>, buf: seq<Byte>, part: Span, at: bool)
    requires End(part) <= |buf|
    ensures End(part) == part.off + part.len
    ensures HostTo(buf, part, at, part.off).s == if at then UserinfoStart else HostStart
    ensures HostSplitAs(f0[UfHost := Span(part.off, 0)], f0, HostTo(buf, part, at, part.off))
  {
  }

  /** One character of the host part. */
  lemma HostStep(buf: seq<Byte>, part: Span, at: bool, p: nat)
    requires part.off <= p < |buf| && HostTo(buf, part, at, p).s != HostDead
    ensures var h := HostTo(buf, part, at, p);
            var s' := ParseHostChar(h.s, buf[p]);
            && HostTo(buf, part, at, p + 1) == HostAdvance(h, p, s') && HostTo(buf, part, at, p + 1).s == s'
  {
    AdvanceHostState(HostTo(buf, part, at, p), p, buf[p]);
    hide ParseHostChar, HostAdvance;
  }

  lemma {:induction false} DeadHost(buf: seq<Byte>, part: Span, at: bool, n: nat, m: nat)
    requires part.off <= n <= m <= |buf| && HostTo(buf, part, at, n).s == HostDead
    ensures HostTo(buf, part, at, m).s == HostDead
    decreases m
  {
    if n < m {
      DeadHost(buf, part, at, n, m - 1);
    }
  }

  lemma {:induction false} DeadScan(buf: seq<Byte>, n: nat, m: nat, isConnect: bool)
    requires n <= m <= |buf| && ScanTo(buf, n, isConnect).s == Dead
    ensures ScanTo(buf, m, isConnect).s == Dead
    decreases m
  {
    hide ScanChar;
    if n < m {
      DeadScan(buf, n, m - 1, isConnect);
    }
  }
}
