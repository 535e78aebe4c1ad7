/** The port of a URL: strtoul reads on behind a buffer that ends with the port. When that matters, told from
    the buffer and the byte behind it. */
module UrlPort {
  import opened Bytes
  import opened Queues
  import opened UrlModel
  import opened UrlCompose

  // ---------- buffers that end with a port ----------

  /** The digits a buffer ends with. */
  function Tail(buf: seq<Byte>): (d: seq<Byte>)
    ensures |d| <= |buf| && d == buf[|buf| - |d|..] && AllDigits(d)
    ensures |d| < |buf| ==> !IsDigit(buf[|buf| - |d| - 1])
  {
    if buf == [] || !IsDigit(buf[|buf| - 1]) then []
    else
      var d := Tail(buf[..|buf| - 1]);
      assert forall i :: 0 <= i < |d| ==> (d + [buf[|buf| - 1]])[i] == d[i];
      d + [buf[|buf| - 1]]
  }

  function FirstSlash(buf: seq<Byte>): (a: nat)
    ensures a <= |buf| && (a < |buf| ==> buf[a] == 47) && forall i :: 0 <= i < a ==> buf[i] != 47
  {
    if buf == [] || buf[0] == 47 then 0 else FirstSlash(buf[1..]) + 1
  }

  /** Where the authority begins. */
  function Authority0(buf: seq<Byte>, isConnect: bool): nat
  {
    if isConnect then 0 else FirstSlash(buf) + 2
  }

  /** No slash and no question mark behind the start of the authority. */
  ghost predicate Open(buf: seq<Byte>, n: nat, isConnect: bool)
    requires n <= |buf|
  {
    && (!isConnect ==> n > 0 && Alpha(buf[0])) && Authority0(buf, isConnect) <= n
    && forall i :: Authority0(buf, isConnect) <= i < n ==> buf[i] != 47 && buf[i] != 63
  }

  /** The scan has left the authority, or there is none. */
  ghost predicate Closed(buf: seq<Byte>, n: nat, isConnect: bool)
    requires n <= |buf|
  {
    (!isConnect && n > 0 && !Alpha(buf[0]))
    || exists i :: Authority0(buf, isConnect) <= i < n && (buf[i] == 47 || buf[i] == 63)
  }

  /** The buffer ends with a colon and digits, and that is in its authority. */
  ghost predicate EndsInPort(buf: seq<Byte>, isConnect: bool)
  {
    && Tail(buf) != [] && |Tail(buf)| < |buf| && buf[|buf| - |Tail(buf)| - 1] == 58
    && Open(buf, |buf|, isConnect)
  }

  /** Open, behind two slashes. */
  ghost predicate Begun(buf: seq<Byte>, n: nat, isConnect: bool)
    requires n <= |buf|
  {
    Open(buf, n, isConnect) && (!isConnect ==> buf[FirstSlash(buf) + 1] == 47)
  }

  /** What the states of the scan say of the characters read. */
  ghost predicate Told(buf: seq<Byte>, k: Scan, n: nat, isConnect: bool)
    requires n <= |buf|
  {
    match k.s
    case Dead => true
    case SpacesBeforeUrl => n == 0 && !isConnect
    case Schema => !isConnect && n > 0 && Alpha(buf[0]) && FirstSlash(buf) >= n && UfHost !in k.fields
    case SchemaSlash => !isConnect && n > 0 && Alpha(buf[0]) && FirstSlash(buf) >= n && UfHost !in k.fields
    case SchemaSlashSlash => !isConnect && n > 0 && Alpha(buf[0]) && FirstSlash(buf) == n - 1 && UfHost !in k.fields
    case ServerStart => Begun(buf, n, isConnect) && n == Authority0(buf, isConnect) && UfHost !in k.fields
    case Server => Begun(buf, n, isConnect) && UfHost in k.fields && k.fields[UfHost].off == Authority0(buf, isConnect)
    case ServerWithAt => Begun(buf, n, isConnect)
                         && UfHost in k.fields && k.fields[UfHost].off == Authority0(buf, isConnect)
    case _ => Closed(buf, n, isConnect)
  }

  lemma ToldStep(buf: seq<Byte>, k: Scan, n: nat, isConnect: bool)
    requires n < |buf| && n < MAX_BUFFER && k.s != Dead && Told(buf, k, n, isConnect) && ScanInv(k, n)
    ensures Told(buf, ScanChar(k, n, buf[n]), n + 1, isConnect)
  {
    hide Orderly, FirstSlash;
    AdvanceState(k, n, buf[n]);
    if buf[n] == 47 || buf[n] == 63 {
      assert Authority0(buf, isConnect) <= n ==> Closed(buf, n + 1, isConnect);
    }
  }

  lemma {:induction false} ScanTold(buf: seq<Byte>, n: nat, isConnect: bool)
    requires n <= |buf| && n <= MAX_BUFFER
    ensures Told(buf, ScanTo(buf, n, isConnect), n, isConnect)
  {
    hide ScanInv, ScanChar, Told;
    if n > 0 {
      ScanTold(buf, n - 1, isConnect);
      ScanKeeps(buf, n - 1, isConnect);
      if ScanTo(buf, n - 1, isConnect).s != Dead {
        ToldStep(buf, ScanTo(buf, n - 1, isConnect), n - 1, isConnect);
      } else {
        DeadTold(buf, ScanTo(buf, n - 1, isConnect), n, isConnect);
      }
    } else {
      StartTold(buf, isConnect);
    }
  }

  lemma DeadTold(buf: seq<Byte>, k: Scan, n: nat, isConnect: bool)
    requires n <= |buf| && k.s == Dead
    ensures Told(buf, k, n, isConnect)
  {
  }

  lemma StartTold(buf: seq<Byte>, isConnect: bool)
    ensures Told(buf, Start(isConnect), 0, isConnect)
  {
  }

  // ---------- the host scan at its end ----------

  /** Where a port begins. */
  ghost predicate ColonRead(buf: seq<Byte>, part: Span, h: HostScan, n: nat)
    requires n <= |buf|
  {
    && (h.s == PortStart ==> part.off < n && buf[n - 1] == 58)
    && (h.s == Port ==>
         && h.port.Some? && h.port.value.len > 0 && part.off < h.port.value.off && End(h.port.value) == n
         && buf[h.port.value.off - 1] == 58 && AllDigits(Text(buf, h.port.value)))
  }

  lemma ColonStep(buf: seq<Byte>, part: Span, h: HostScan, n: nat)
    requires part.off <= n < |buf| && n < MAX_BUFFER && ColonRead(buf, part, h, n)
    ensures ColonRead(buf, part, HostAdvance(h, n, ParseHostChar(h.s, buf[n])), n + 1)
  {
    HostMoves(h.s, buf[n]);
    OnlyDigits(h.s, buf[n]);
    OnlyColon(h.s, buf[n]);
    hide ParseHostChar;
    if h.s == Port {
      TextGrows(buf, h.port.value);
    }
    OneChar(buf, n);
  }

  lemma OnlyColon(s: HostState, ch: Byte)
    ensures ParseHostChar(s, ch) == PortStart ==> ch == 58
  {
  }

  lemma {:induction false} PortBehindColon(buf: seq<Byte>, part: Span, at: bool, n: nat)
    requires part.off <= n <= |buf| && n <= MAX_BUFFER
    ensures ColonRead(buf, part, HostTo(buf, part, at, n), n)
    decreases n
  {
    hide ColonRead, HostAdvance, ParseHostChar;
    if n > part.off {
      PortBehindColon(buf, part, at, n - 1);
      if HostTo(buf, part, at, n - 1).s != HostDead {
        ColonStep(buf, part, HostTo(buf, part, at, n - 1), n - 1);
      } else {
        NoPortRead(buf, part, HostTo(buf, part, at, n - 1), n);
      }
    } else {
      NoPortRead(buf, part, HostStartAt(part, at), n);
    }
  }

  lemma NoPortRead(buf: seq<Byte>, part: Span, h: HostScan, n: nat)
    requires n <= |buf| && h.s != PortStart && h.s != Port
    ensures ColonRead(buf, part, h, n)
  {
  }

  /** Behind a colon and digits the scan is in a port, or it cannot end well there. */
  ghost predicate DigitsRead(h: HostScan, i: nat, n: nat)
  {
    || h.s == HostDead || h.s == Userinfo || h.s == V6
    || (n == i + 1 && h.s == PortStart) || (n > i + 1 && h.s == Port && h.port == Some(Span(i + 1, n - i - 1)))
  }

  lemma AfterColon(s: HostState)
    ensures var s' := ParseHostChar(s, 58); s' == HostDead || s' == Userinfo || s' == V6 || s' == PortStart
  {
  }

  lemma AfterDigit(s: HostState, ch: Byte)
    requires IsDigit(ch) && (s == Userinfo || s == V6 || s == PortStart || s == Port)
    ensures ParseHostChar(s, ch) == if s == PortStart then Port else s
  {
  }

  lemma DigitStep(h: HostScan, i: nat, n: nat, ch: Byte)
    requires i < n < MAX_BUFFER && IsDigit(ch) && h.s != HostDead && DigitsRead(h, i, n)
    ensures DigitsRead(HostAdvance(h, n, ParseHostChar(h.s, ch)), i, n + 1)
  {
    AfterDigit(h.s, ch);
    hide ParseHostChar;
  }

  lemma ColonFirst(h: HostScan, i: nat)
    ensures DigitsRead(HostAdvance(h, i, ParseHostChar(h.s, 58)), i, i + 1)
  {
    AfterColon(h.s);
    hide ParseHostChar;
  }

  lemma DeadRead(h: HostScan, i: nat, n: nat)
    requires h.s == HostDead
    ensures DigitsRead(h, i, n)
  {
  }

  lemma {:induction false} TailRead(buf: seq<Byte>, part: Span, at: bool, i: nat, n: nat)
    requires part.off <= i < n <= |buf| && n <= MAX_BUFFER && buf[i] == 58
    requires forall j :: i < j < n ==> IsDigit(buf[j])
    ensures DigitsRead(HostTo(buf, part, at, n), i, n)
    decreases n
  {
    hide ParseHostChar, HostAdvance, DigitsRead;
    var h := HostTo(buf, part, at, n - 1);
    if h.s == HostDead {
      DeadRead(h, i, n);
    } else if n == i + 1 {
      ColonFirst(h, i);
    } else {
      TailRead(buf, part, at, i, n - 1);
      DigitStep(h, i, n - 1, buf[n - 1]);
    }
  }

  lemma {:induction false} TailIs(buf: seq<Byte>, m: nat)
    requires m < |buf| && !IsDigit(buf[|buf| - m - 1]) && forall j :: |buf| - m <= j < |buf| ==> IsDigit(buf[j])
    ensures Tail(buf) == buf[|buf| - m..]
    decreases m
  {
    if m > 0 {
      var init := buf[..|buf| - 1];
      TailIs(init, m - 1);
      assert init[|init| - (m - 1)..] + [buf[|buf| - 1]] == buf[|buf| - m..];
    }
  }

  /** The authority reaches to the end of the buffer exactly when nothing closes it. */
  lemma AuthorityAtEnd(buf: seq<Byte>, isConnect: bool)
    requires |buf| <= MAX_BUFFER
    ensures var k := ScanTo(buf, |buf|, isConnect);
            k.s != Dead ==>
              && ScanInv(k, |buf|)
              && (UfHost in k.fields && End(k.fields[UfHost]) == |buf| ==> Open(buf, |buf|, isConnect))
              && (EndsInPort(buf, isConnect) ==>
                    && UfHost in k.fields && End(k.fields[UfHost]) == |buf|
                    && k.fields[UfHost].off == Authority0(buf, isConnect) <= |buf| - |Tail(buf)| - 1)
  {
    hide ScanTo, Told, ScanInv, Open, EndsInPort, Authority0, Tail, FirstSlash;
    var k := ScanTo(buf, |buf|, isConnect);
    ScanTold(buf, |buf|, isConnect);
    ScanKeeps(buf, |buf|, isConnect);
    if k.s != Dead {
      if UfHost in k.fields && End(k.fields[UfHost]) == |buf| {
        HostAtEnd(buf, k, isConnect);
      }
      if EndsInPort(buf, isConnect) {
        ColonInAuthority(buf, k, isConnect);
      }
    }
  }

  lemma HostAtEnd(buf: seq<Byte>, k: Scan, isConnect: bool)
    requires k.s != Dead && Told(buf, k, |buf|, isConnect) && ScanInv(k, |buf|)
    requires UfHost in k.fields && End(k.fields[UfHost]) == |buf|
    ensures k.s == Server || k.s == ServerWithAt
    ensures Open(buf, |buf|, isConnect)
  {
    hide FirstSlash, Closed, Open;
    RankApart(UfHost, k.last.value);
  }

  lemma ColonInAuthority(buf: seq<Byte>, k: Scan, isConnect: bool)
    requires k.s != Dead && Told(buf, k, |buf|, isConnect) && ScanInv(k, |buf|)
    requires EndsInPort(buf, isConnect)
    ensures UfHost in k.fields && End(k.fields[UfHost]) == |buf|
    ensures k.fields[UfHost].off == Authority0(buf, isConnect) <= |buf| - |Tail(buf)| - 1
  {
    hide Orderly;
    TailBytes(buf);
  }

  lemma TailBytes(buf: seq<Byte>)
    ensures forall j :: |buf| - |Tail(buf)| <= j < |buf| ==> IsDigit(buf[j])
  {
    var d := Tail(buf);
    hide Tail;
    forall j | |buf| - |d| <= j < |buf|
      ensures IsDigit(buf[j])
    {
      assert d[j - (|buf| - |d|)] == buf[j];
    }
  }

  // ---------- the port ----------

  /** An accepted URL's port ends its buffer exactly when the buffer ends in a colon and digits inside its
      authority; then the port's digits are these. */
  lemma PortAtEnd(buf: seq<Byte>, isConnect: bool)
    requires |buf| <= MAX_BUFFER
    ensures var k := ScanTo(buf, |buf|, isConnect);
            && (UfHost in k.fields ==> End(k.fields[UfHost]) <= |buf|)
            && (k.s != Dead && SplitAt(buf, k).Some? ==>
                 var fields := SplitAt(buf, k).value;
                 && (UfPort in fields && End(fields[UfPort]) == |buf| <==> EndsInPort(buf, isConnect))
                 && (EndsInPort(buf, isConnect) ==> Text(buf, fields[UfPort]) == Tail(buf)))
  {
    PortInside(buf, isConnect);
    hide ScanTo, HostTo, Tail, Open, Orderly;
    var k := ScanTo(buf, |buf|, isConnect);
    if k.s != Dead && SplitAt(buf, k).Some? {
      AuthorityAtEnd(buf, isConnect);
      ScanHasNoPort(buf, |buf|, isConnect);
      if UfHost in k.fields {
        HostPortAtEnd(buf, k, isConnect);
      }
    }
  }

  lemma HostPortAtEnd(buf: seq<Byte>, k: Scan, isConnect: bool)
    requires |buf| <= MAX_BUFFER && UfHost in k.fields && End(k.fields[UfHost]) <= |buf|
    requires var h := HostTo(buf, k.fields[UfHost], k.at, End(k.fields[UfHost])); HostDone(h.s)
    requires End(k.fields[UfHost]) == |buf| ==> Open(buf, |buf|, isConnect)
    requires EndsInPort(buf, isConnect) ==>
               End(k.fields[UfHost]) == |buf| && k.fields[UfHost].off <= |buf| - |Tail(buf)| - 1
    ensures var h := HostTo(buf, k.fields[UfHost], k.at, End(k.fields[UfHost]));
            && (h.port.Some? && End(h.port.value) == |buf| <==> EndsInPort(buf, isConnect))
            && (EndsInPort(buf, isConnect) ==> Text(buf, h.port.value) == Tail(buf))
  {
    hide HostTo, Tail, Open;
    var part := k.fields[UfHost];
    var h := HostTo(buf, part, k.at, End(part));
    HostKeeps(buf, part, k.at, End(part));
    PortBehindColon(buf, part, k.at, End(part));
    DoneIsFound(h, part);
    if EndsInPort(buf, isConnect) {
      TailBytes(buf);
      TailRead(buf, part, k.at, |buf| - |Tail(buf)| - 1, |buf|);
    }
    if h.port.Some? && End(h.port.value) == |buf| {
      PortIsTail(buf, h.port.value);
    }
  }

  lemma PortIsTail(buf: seq<Byte>, port: Span)
    requires End(port) == |buf| && 0 < port.off && port.len > 0 && buf[port.off - 1] == 58 && AllDigits(Text(buf, port))
    ensures Tail(buf) == Text(buf, port) != [] && |Tail(buf)| < |buf| && buf[|buf| - |Tail(buf)| - 1] == 58
  {
    forall j | port.off <= j < |buf|
      ensures IsDigit(buf[j])
    {
      assert Text(buf, port)[j - port.off] == buf[j];
    }
    TailIs(buf, port.len);
  }

  /** What lies behind the buffer decides nothing but the port, and that exactly when the buffer ends in
      one: then the digits there belong to it, and push it over 65535 or make it another number. */
  lemma BehindTheBuffer(buf: seq<Byte>, beyond: seq<Byte>, isConnect: bool)
    requires |buf| <= MAX_BUFFER
    ensures AllDigits(Tail(buf) + Digits(beyond))
    ensures var alone := ParseUrl(buf, [], isConnect);
            && (EndsInPort(buf, isConnect) && alone.Some? ==> alone.value.port == DigitValue(Tail(buf)))
            && ParseUrl(buf, beyond, isConnect)
               == if alone.None? || !EndsInPort(buf, isConnect) then alone
                  else if DigitValue(Tail(buf) + Digits(beyond)) > 0xffff then None
                  else Some(alone.value.(port := DigitValue(Tail(buf) + Digits(beyond))))
  {
    hide *;
    TailJoins(buf, beyond);
    PortIsFound(buf, isConnect);
    PortAtEnd(buf, isConnect);
    var k := ScanTo(buf, |buf|, isConnect);
    if k.s == Dead {
      NoSplit(buf, [], isConnect);
      NoSplit(buf, beyond, isConnect);
    } else if SplitAt(buf, k).None? {
      NoSplit(buf, [], isConnect);
      NoSplit(buf, beyond, isConnect);
    } else {
      var fields := SplitAt(buf, k).value;
      if UfPort in fields {
        PortIsNotEmpty(buf, fields[UfPort]);
      }
      FromSplit(buf, [], isConnect, fields);
      FromSplit(buf, beyond, isConnect, fields);
      if UfPort in fields {
        PortNumbers(buf, beyond, fields[UfPort]);
      }
    }
  }

  lemma PortIsNotEmpty(buf: seq<Byte>, port: Span)
    requires PortFound(buf, port)
    ensures port.off <= End(port) <= |buf| && Text(buf, port) != []
  {
  }

  lemma NoSplit(buf: seq<Byte>, beyond: seq<Byte>, isConnect: bool)
    requires var k := ScanTo(buf, |buf|, isConnect);
             && (UfHost in k.fields ==> End(k.fields[UfHost]) <= |buf|) && (k.s == Dead || SplitAt(buf, k).None?)
    ensures ParseUrl(buf, beyond, isConnect) == None
  {
    hide ScanTo, SplitAt;
  }

  lemma FromSplit(buf: seq<Byte>, beyond: seq<Byte>, isConnect: bool, fields: map<Field, Span>)
    requires var k := ScanTo(buf, |buf|, isConnect);
             && (UfHost in k.fields ==> End(k.fields[UfHost]) <= |buf|) && k.s != Dead
             && SplitAt(buf, k) == Some(fields)
    requires UfPort in fields ==> fields[UfPort].off <= |buf|
    ensures ParseUrl(buf, beyond, isConnect)
            == if isConnect && fields.Keys != {UfHost, UfPort} then None
               else if UfPort !in fields then Some(Url(fields, 0))
               else if PortNumber(buf, beyond, fields[UfPort].off) > 0xffff then None
               else Some(Url(fields, PortNumber(buf, beyond, fields[UfPort].off)))
  {
    hide ScanTo, SplitAt, PortNumber;
  }

  lemma TailJoins(buf: seq<Byte>, beyond: seq<Byte>)
    ensures AllDigits(Tail(buf) + Digits(beyond)) && AllDigits(Tail(buf)) && AllDigits(Digits(beyond))
    ensures Tail(buf) != [] ==> DigitValue(Tail(buf) + Digits(beyond)) >= DigitValue(Tail(buf))
  {
    if Tail(buf) != [] {
      ValueJoins(Tail(buf), Digits(beyond));
    }
  }

  lemma PortNumbers(buf: seq<Byte>, beyond: seq<Byte>, port: Span)
    requires PortFound(buf, port)
    ensures PortNumber(buf, [], port.off) == DigitValue(Text(buf, port))
    ensures End(port) == |buf| ==>
              AllDigits(Text(buf, port) + Digits(beyond))
              && PortNumber(buf, beyond, port.off) == DigitValue(Text(buf, port) + Digits(beyond))
    ensures End(port) < |buf| ==> PortNumber(buf, beyond, port.off) == PortNumber(buf, [], port.off)
  {
    hide PortNumber;
    PortDigits(buf, beyond, port);
    PortDigits(buf, [], port);
    var t := Text(buf, port);
    assert t + [] == t && Digits([]) == [];
    ValueJoins(t, Digits(beyond));
  }

  /** The port of an accepted URL is the number its own digits spell exactly when the buffer does not end in
      a port, or the byte behind it is no digit, or all its digits and those behind are zero. */
  lemma PortIsItsDigits(buf: seq<Byte>, beyond: seq<Byte>, isConnect: bool)
    requires |buf| <= MAX_BUFFER && ParseUrl(buf, beyond, isConnect).Some?
    requires UfPort in ParseUrl(buf, beyond, isConnect).value.fields
    ensures var url := ParseUrl(buf, beyond, isConnect).value;
            && End(url.fields[UfPort]) <= |buf| && AllDigits(Text(buf, url.fields[UfPort]))
            && (url.port == DigitValue(Text(buf, url.fields[UfPort]))
                <==> || !EndsInPort(buf, isConnect) || beyond == [] || !IsDigit(beyond[0])
                     || (DigitValue(Tail(buf)) == 0 && DigitValue(Digits(beyond)) == 0))
  {
    hide ScanTo, SplitAt, Tail, EndsInPort, Text;
    PortValue(buf, beyond, isConnect);
    PortAtEnd(buf, isConnect);
  }

  // ---------- an input for which it is not ----------

  /** "http" "a" "8" */
  const SMALL: Parts := Parts([104, 116, 116, 112], None, Plain([97]), Some([56]), [], None, None)

  /** http://a:8 */
  const SMALL_URL: seq<Byte> := [104, 116, 116, 112, 58, 47, 47, 97, 58, 56]

  lemma SmallIsOk()
    ensures PartsOk(SMALL) && EndsWithPort(SMALL) && Compose(SMALL) == SMALL_URL
    ensures DigitValue(SMALL.port.value) == 8
  {
    assert DigitValue([56][..0]) == 0;
    assert DigitValue([56]) == 8;
  }

  lemma SmallEnds()
    ensures Tail(SMALL_URL) == [56] && EndsInPort(SMALL_URL, false)
  {
    hide Open;
    TailIs(SMALL_URL, 1);
    assert Tail(SMALL_URL) == [56];
    SmallOpen(SMALL_URL);
  }

  /** The URL alone is accepted, with port 8; with a 0 behind it in memory it has port 80. */
  lemma PortOfTheNextByte()
    ensures var url := ParseUrl(SMALL_URL, [], false); url.Some? && url.value.port == 8
    ensures var url := ParseUrl(SMALL_URL, [48], false); url.Some? && url.value.port == 80
  {
    hide ParseUrl, EndsInPort, Compose, PartsOk, EndsWithPort, HoldsParts, DigitValue, Tail, SMALL_URL;
    SmallIsOk();
    SmallEnds();
    SmallFits();
    SplitAfterCompose(SMALL, []);
    BehindTheBuffer(SMALL_URL, [48], false);
    EightyIs();
  }

  lemma SmallFits()
    ensures |SMALL_URL| <= MAX_BUFFER && Digits([]) == []
  {
  }

  lemma SmallOpen(buf: seq<Byte>)
    requires buf == [104, 116, 116, 112, 58, 47, 47, 97, 58, 56]
    ensures Open(buf, |buf|, false)
  {
    assert FirstSlash(buf) == 5 by {
      assert FirstSlash(buf) >= 5 && buf[5] == 47;
      assert FirstSlash(buf) <= 5;
    }
  }

  lemma EightyIs()
    ensures Digits([48]) == [48] && [56] + Digits([48]) == [56, 48] && DigitValue([56, 48]) == 80
  {
    var d: seq<Byte> := [56, 48];
    assert Digits([48]) == [48] + Digits([]);
    assert d[..1] == [56] && d[..1][..0] == [];
    assert DigitValue([56]) == 8;
  }
}
