/** Round trips between the SOCKS5 encoder and the two parsers, and the dispatch on the parsed host
    (connections/base/proxytunnel.go:211-222). */
module SocksTheorems {
  import opened Wrappers
  import opened Decimal
  import opened Socks5
  import opened SocksText

  // ------------------------------------------------------------ encoder and server parser

  lemma PortRoundTrip(p: int)
    requires 0 <= p < 65536
    ensures Port(BigEndian16(p)) == p
  {
    assert p / 256 % 256 == p / 256;
  }

  /** The parser takes a domain request apart at the length byte, whatever follows. */
  lemma ParseDomain(w: Bytes, ip6: Bytes -> Bytes)
    requires |w| >= 5 && w[3] % 16 == TYPE_DOMAIN && |w| >= w[4] as int + 7
    ensures var n := w[4] as int;
      ParseServer(w, ip6) ==
        (Request(JoinHostPort(w[5..5 + n], Itoa(Port(w[5 + n..7 + n]))), w[..n + 7], w[1] == CMD_UDP), w[n + 7..])
  {
    var n := w[4] as int;
    var raw := w[..n + 7];
    assert raw[5..|raw| - 2] == w[5..5 + n];
    assert raw[|raw| - 2..] == w[5 + n..7 + n];
  }

  /** For every host of at most 255 bytes and every port, the server reads back the joined host and the
      port (16 bits of it) and consumes exactly the encoded bytes. */
  lemma EncodeThenParse(host: Bytes, port: int, more: Bytes, ip6: Bytes -> Bytes)
    requires |host| <= 255
    ensures var raw := EncodeDomain(host, port);
      && HeaderOk(raw + more)
      && ParseServer(raw + more, ip6) == (Request(JoinHostPort(host, Itoa(port % 65536)), raw, false), more)
  {
    var raw := EncodeDomain(host, port);
    var w := raw + more;
    var n := |host|;
    assert w[4] == n;
    assert w[5..5 + n] == host;
    assert w[5 + n..7 + n] == BigEndian16(port % 65536);
    assert w[..n + 7] == raw && w[n + 7..] == more;
    ParseDomain(w, ip6);
    PortRoundTrip(port % 65536);
  }

  /** A longer host wraps the length byte: the server stops early and leaves encoded bytes unread. */
  lemma LongHostStopsEarly(host: Bytes, port: int, more: Bytes, ip6: Bytes -> Bytes)
    requires |host| > 255
    ensures |ParseServer(EncodeDomain(host, port) + more, ip6).1| > |more|
  {
    var w := EncodeDomain(host, port) + more;
    assert w[4] == |host| % 256 && w[3] == 3;
    ParseDomain(w, ip6);
  }

  /** The server reads the encoded host and port back and consumes exactly the encoded bytes. */
  ghost predicate ReadsBack(host: Bytes, port: nat, more: Bytes, ip6: Bytes -> Bytes) {
    var raw := EncodeDomain(host, port);
    var (res, rest) := ParseServer(raw + more, ip6);
    rest == more && res == Request(JoinHostPort(host, Itoa(port)), raw, false)
  }

  lemma ShortHostReadsBack(host: Bytes, port: nat, more: Bytes, ip6: Bytes -> Bytes)
    requires port < 65536 && |host| <= 255
    ensures ReadsBack(host, port, more, ip6)
  {
    EncodeThenParse(host, port, more, ip6);
    assert port % 65536 == port;
  }

  lemma LongHostDoesNot(host: Bytes, port: nat, more: Bytes, ip6: Bytes -> Bytes)
    requires |host| > 255
    ensures !ReadsBack(host, port, more, ip6)
  {
    LongHostStopsEarly(host, port, more, ip6);
  }

  /** The bound is exact: a longer host wraps the length byte. */
  lemma RoundTripIffShort(host: Bytes, port: nat, more: Bytes, ip6: Bytes -> Bytes)
    requires port < 65536
    ensures ReadsBack(host, port, more, ip6) <==> |host| <= 255
  {
    if |host| <= 255 {
      ShortHostReadsBack(host, port, more, ip6);
    } else {
      LongHostDoesNot(host, port, more, ip6);
    }
  }

  /** The plain decimal form of a 16-bit number. */
  ghost predicate IsPort(s: Bytes) {
    exists n: nat :: n < 65536 && s == Itoa(n)
  }

  /** The combined form `host:port` with port -1 survives as text exactly when the part after the first
      colon is the plain decimal form of a 16-bit number. */
  lemma HostPortTextIff(host: Bytes, rest: Bytes, more: Bytes, ip6: Bytes -> Bytes)
    requires COLON !in host
    ensures var text := host + [COLON] + rest;
      var (h, p) := Target(text, -1);
      var raw := EncodeDomain(h, p);
      ParseServer(raw + more, ip6) == (Request(text, raw, false), more) <==> |host| <= 255 && IsPort(rest)
  {
    var text := host + [COLON] + rest;
    var (h, p) := Target(text, -1);
    SplitAtColon(host, rest);
    var raw := EncodeDomain(h, p);
    if |host| <= 255 {
      EncodeThenParse(host, p, more, ip6);
      PortText(host, rest);
    } else {
      LongHostStopsEarly(host, p, more, ip6);
    }
  }

  lemma SplitAtColon(host: Bytes, rest: Bytes)
    requires COLON !in host
    ensures Target(host + [COLON] + rest, -1) == (host, Atoi(rest))
  {
    var text := host + [COLON] + rest;
    assert text[|host|] == COLON;
    FirstColon(host, rest);
    assert text[..|host|] == host && text[|host| + 1..] == rest;
  }

  lemma PlainFormIff(rest: Bytes, v: int, n: nat)
    requires v == Atoi(rest) && n == v % 65536
    ensures Itoa(n) == rest <==> IsPort(rest)
  {
    if IsPort(rest) {
      var k: nat :| k < 65536 && rest == Itoa(k);
      AtoiItoa(k);
      assert v == k && n == k;
    }
    if Itoa(n) == rest {
      assert n < 65536 && rest == Itoa(n);
    }
  }

  lemma AfterColon(host: Bytes, s: Bytes)
    ensures (host + [COLON] + s)[|host| + 1..] == s
  {
  }

  /** Joining the parsed number again gives the text back only if it was in plain form. */
  lemma PortText(host: Bytes, rest: Bytes)
    requires COLON !in host
    ensures JoinHostPort(host, Itoa(Atoi(rest) % 65536)) == host + [COLON] + rest <==> IsPort(rest)
  {
    var n: nat := Atoi(rest) % 65536;
    assert JoinHostPort(host, Itoa(n)) == host + [COLON] + Itoa(n);
    AfterColon(host, rest);
    AfterColon(host, Itoa(n));
    PlainFormIff(rest, Atoi(rest), n);
  }

  // ------------------------------------------------------------ local parser and server parser

  /** Every request the local parser accepts is exactly the announced prefix of the stream, however it arrives. */
  lemma LocalTakesPrefix(w: Bytes, n: nat)
    requires 5 <= n <= |w| && ParseLocal(w, n).0.Accepted?
    ensures var (res, rest) := ParseLocal(w, n);
      && |res.raw| >= 5 && LocalLen(res.raw) == Some(|res.raw|)
      && res.raw + rest == w
      && (res.raw[3] == 3 ==> res.raw[4] <= 250)
  {
    var (res, rest) := ParseLocal(w, n);
    assert w[..|res.raw|] + w[|res.raw|..] == w;
  }

  /** A request of exactly the announced length is read off the stream whatever follows. */
  lemma ParsePrefix(raw: Bytes, more: Bytes, ip6: Bytes -> Bytes)
    requires |raw| >= 5 && ServerEnd(raw) == Some(|raw|)
    ensures ParseServer(raw + more, ip6) == (ServerRequest(raw, ip6), more)
  {
    hide ServerRequest;
    var v := raw + more;
    assert v[..|raw|] == raw && v[|raw|..] == more;
    assert v[3] == raw[3] && v[4] == raw[4];
  }

  /** What the server reports for an IPv4 or a domain request the local parser accepted. */
  lemma LocalThenServer(w: Bytes, n: nat, more: Bytes, ip6: Bytes -> Bytes)
    requires 5 <= n <= |w| && ParseLocal(w, n).0.Accepted?
    ensures var res := ParseLocal(w, n).0;
      var raw := res.raw;
      && |raw| >= 5 && HeaderOk(raw + more)
      && (raw[3] == 1 ==>
            var host := JoinHostPort(IPv4Text(raw[4..8]), res.port);
            DottedQuad(IPv4Text(raw[4..8]), raw[4..8]) &&
            ParseServer(raw + more, ip6) == (Request(host, raw, res.isUdp), more))
      && (raw[3] == 3 ==>
            var host := JoinHostPort(raw[5..5 + raw[4] as int], res.port);
            ParseServer(raw + more, ip6) == (Request(host, raw, res.isUdp), more))
  {
    hide Itoa, Port, JoinHostPort, IPv4Text;
    LocalTakesPrefix(w, n);
    var res := ParseLocal(w, n).0;
    var raw := res.raw;
    var len := |raw|;
    assert raw == w[..len] && raw[len - 2..] == w[len - 2..len];
    if raw[3] == 1 {
      IPv4ReadsBack(raw[4..8]);
    }
    if raw[3] == 1 || raw[3] == 3 {
      ParsePrefix(raw, more, ip6);
    }
  }

  /** Exactly which requests make the local parser panic: those of a known version and command whose name, or
      configuration text of address type 5, is longer than 250 bytes, however the bytes arrive. */
  lemma LocalPanicsIff(w: Bytes, n: nat)
    requires 5 <= n <= |w|
    ensures ParseLocal(w, n).0.SlicePanic? <==>
            w[0] in {VER4, VER5} && w[1] in {CMD_CONNECT, CMD_UDP} && w[3] in {3, 5} && w[4] > 250
  {
  }

  /** Such requests: the encoder's own for every host of 251 to 255 bytes, which the server parser reads. */
  lemma LongNamePanics(host: Bytes, port: int, more: Bytes, n: nat, ip6: Bytes -> Bytes)
    requires 251 <= |host| <= 255 && 5 <= n <= |EncodeDomain(host, port) + more|
    ensures var w := EncodeDomain(host, port) + more;
      ParseLocal(w, n).0.SlicePanic? && ParseServer(w, ip6).0.Request?
  {
    hide ParseServer, ParseLocal;
    var w := EncodeDomain(host, port) + more;
    assert w[0] == 5 && w[1] == 1 && w[3] == 3 && w[4] == |host|;
    LocalPanicsIff(w, n);
    EncodeThenParse(host, port, more, ip6);
  }

  /** The host text of an accepted domain request is the name it carries exactly when the first read
      already brought the name, up to bytes that are zero anyway. */
  lemma LocalHostIff(w: Bytes, n: nat)
    requires 5 <= n <= |w| && ParseLocal(w, n).0.Accepted? && w[3] in {3, 5}
    ensures var end := 5 + w[4] as int;
      end <= |w| && (ParseLocal(w, n).0.host == w[5..end] <==> forall i | n <= i < end :: w[i] == 0)
  {
    var end := 5 + w[4] as int;
    var host, name := LocalHost(w, n), w[5..end];
    assert forall i | 0 <= i < |name| :: host[i] == (if 5 + i < n then w[5 + i] else 0) && name[i] == w[5 + i];
    if host == name {
      forall i | n <= i < end ensures w[i] == 0 {
        assert host[i - 5] == name[i - 5];
      }
    }
  }

  /** The other two accepted types do not survive: the server wants four more bytes for IPv6 and knows no type 5. */
  lemma OtherTypesFail(raw: Bytes, ip6: Bytes -> Bytes)
    requires |raw| >= 5 && LocalLen(raw) == Some(|raw|) && raw[3] != 1 && raw[3] != 3
    ensures ParseServer(raw, ip6).0 == if raw[3] == 4 then Short else Unsupported
  {
    assert raw[3] == 4 || raw[3] == 5;
  }

  /** For IPv4 and domain requests, and only for those, the server parser run on the bytes the local
      parser accepted consumes them all; it reports the address, the port and the UDP flag they carry. */
  lemma LocalSurvivesIff(w: Bytes, n: nat, ip6: Bytes -> Bytes)
    requires 5 <= n <= |w| && ParseLocal(w, n).0.Accepted?
    ensures var raw := ParseLocal(w, n).0.raw;
      |raw| >= 4 && (ParseServer(raw, ip6).0.Request? && ParseServer(raw, ip6).1 == [] <==> raw[3] == 1 || raw[3] == 3)
  {
    LocalTakesPrefix(w, n);
    var raw := ParseLocal(w, n).0.raw;
    LocalThenServer(w, n, [], ip6);
    assert raw + [] == raw;
    if raw[3] != 1 && raw[3] != 3 {
      OtherTypesFail(raw, ip6);
    }
  }

  // ------------------------------------------------------------ dispatch

  const DNS_SCHEME: Bytes := [100, 110, 115, 58, 47, 47]   // dns://
  const CONTROL_SCHEME: Bytes := [82, 58, 47, 47]          // R://
  const OPEN: byte := 91
  const CLOSE: byte := 93

  datatype Route = Control(host: Bytes) | Dns(host: Bytes) | Tcp(host: Bytes) | IndexPanic

  /** Split on `[`, second piece, cut at the first `]`. */
  function Unbracket(host: Bytes): Option<Bytes> {
    if OPEN !in host then None
    else
      var after := host[IndexOf(host, OPEN) + 1..];
      var piece := after[..IndexOf(after, OPEN)];
      Some(piece[..IndexOf(piece, CLOSE)])
  }

  function Dispatch(host: Bytes): Route {
    if CONTROL_SCHEME <= host then Control(host)
    else if DNS_SCHEME <= host || [OPEN] + DNS_SCHEME <= host then
      match Unbracket(host)
      case None => IndexPanic
      case Some(h) => Dns(h)
    else Tcp(host)
  }

  /** A bracketed host comes out unchanged exactly when it holds no brackets of its own. */
  lemma UnbracketJoined(host: Bytes, port: nat)
    requires COLON in host
    ensures var u := Unbracket(JoinHostPort(host, Itoa(port)));
      u.Some? && (u.value == host <==> OPEN !in host && CLOSE !in host)
  {
    hide Itoa;
    var p := Itoa(port);
    var j := JoinHostPort(host, p);
    assert j[0] == OPEN;
    IndexAt(j, OPEN, 0);
    var after := j[1..];
    assert after == host + [CLOSE, COLON] + p;
    if OPEN !in host && CLOSE !in host {
      CutAtClose(host, p);
    }
    assert Unbracket(j) == Some(Cut(after));
    CutHasNoBracket(after);
  }

  /** The text up to the first bracket of either kind. */
  function Cut(after: Bytes): Bytes {
    var piece := after[..IndexOf(after, OPEN)];
    piece[..IndexOf(piece, CLOSE)]
  }

  lemma CutAtClose(host: Bytes, p: Bytes)
    requires OPEN !in host && CLOSE !in host && OPEN !in p
    ensures Cut(host + [CLOSE, COLON] + p) == host
  {
    var after := host + [CLOSE, COLON] + p;
    assert OPEN !in after;
    IndexAt(after, OPEN, |after|);
    assert after[..|after|] == after;
    assert after[|host|] == CLOSE && after[..|host|] == host;
    IndexAt(after, CLOSE, |host|);
  }

  lemma CutHasNoBracket(after: Bytes)
    ensures OPEN !in Cut(after) && CLOSE !in Cut(after)
  {
    var piece := after[..IndexOf(after, OPEN)];
    var cut := Cut(after);
    assert forall i | 0 <= i < |cut| :: cut[i] == piece[i];
  }

  /** Where a joined domain request goes: DNS for the `dns://` hosts, TCP for all others, never to control. */
  lemma DispatchJoined(host: Bytes, port: nat)
    ensures var r := Dispatch(JoinHostPort(host, Itoa(port)));
      && !r.Control? && !r.IndexPanic?
      && (r.Dns? <==> DNS_SCHEME <= host)
      && (r.Tcp? ==> r.host == JoinHostPort(host, Itoa(port)))
  {
    var p := Itoa(port);
    var j := JoinHostPort(host, p);
    if COLON in host {
      assert j[0] == OPEN;
      UnbracketJoined(host, port);
      if DNS_SCHEME <= host {
        assert j[..7] == [OPEN] + host[..6];
      }
      if [OPEN] + DNS_SCHEME <= j {
        DnsInside(host, p);
      }
    } else {
      assert j == host + [COLON] + p;
      PlainHasNoScheme(host, p, CONTROL_SCHEME, 1);
      PlainHasNoScheme(host, p, DNS_SCHEME, 3);
      PlainHasNoScheme(host, p, [OPEN] + DNS_SCHEME, 4);
    }
  }

  /** After the only colon of `host:port` comes a digit, so no `://` can start there. */
  lemma PlainHasNoScheme(host: Bytes, p: Bytes, scheme: Bytes, i: nat)
    requires COLON !in host && |p| > 0 && 48 <= p[0] <= 57 && COLON !in p
    requires i + 1 < |scheme| && scheme[i] == COLON && scheme[i + 1] == 47
    ensures !(scheme <= host + [COLON] + p)
  {
    var j := host + [COLON] + p;
    assert forall k | 0 <= k < |host| :: j[k] == host[k];
    assert forall k | 0 <= k < |p| :: j[|host| + 1 + k] == p[k];
  }

  lemma DnsInside(host: Bytes, p: Bytes)
    requires COLON in host && [OPEN] + DNS_SCHEME <= JoinHostPort(host, p)
    ensures DNS_SCHEME <= host
  {
    var j := JoinHostPort(host, p);
    var scheme := [OPEN] + DNS_SCHEME;
    assert forall i | 0 <= i < 6 :: j[i + 1] == scheme[i + 1] == DNS_SCHEME[i];
    assert j[|host| + 1] == CLOSE;
    assert forall i | 0 <= i < 6 :: host[i] == j[i + 1];
  }

  lemma SchemeHasNoBracket(payload: Bytes)
    ensures OPEN in DNS_SCHEME + payload <==> OPEN in payload
    ensures CLOSE in DNS_SCHEME + payload <==> CLOSE in payload
  {
  }

  lemma DnsUnchangedIff(host: Bytes, port: nat)
    requires DNS_SCHEME <= host
    ensures Dispatch(JoinHostPort(host, Itoa(port))) == Dns(host) <==> OPEN !in host && CLOSE !in host
  {
    assert host[3] == COLON;
    UnbracketJoined(host, port);
    DispatchJoined(host, port);
  }

  /** A `dns://` payload sent as a domain request reaches the DNS handler unchanged exactly when it
      contains no bracket, which base64 text never does. */
  lemma DnsPayloadArrives(payload: Bytes, port: int, more: Bytes, ip6: Bytes -> Bytes)
    requires |payload| <= 249
    ensures var host := DNS_SCHEME + payload;
      var (res, rest) := ParseServer(EncodeDomain(host, port) + more, ip6);
      && res.Request? && rest == more
      && (Dispatch(res.host) == Dns(host) <==> OPEN !in payload && CLOSE !in payload)
  {
    var host := DNS_SCHEME + payload;
    EncodeThenParse(host, port, more, ip6);
    SchemeHasNoBracket(payload);
    DnsUnchangedIff(host, port % 65536);
  }

  /** Exactly which accepted requests reach the control function, and exactly which make the dispatch
      index past a missing bracket: redirect requests of these host texts; all others carry a joined host. */
  lemma OnlyRedirectControls(w: Bytes, ip6: Bytes -> Bytes)
    requires |w| >= 4 && ParseServer(w, ip6).0.Request?
    ensures var h := ParseServer(w, ip6).0.host;
      var r, redirect := Dispatch(h), w[3] % 16 == TYPE_REDIRECT;
      && (redirect ==> |w| >= 5 + w[4] as int && h == w[5..5 + w[4] as int])
      && (r.Control? <==> redirect && CONTROL_SCHEME <= h)
      && (r.IndexPanic? <==> redirect && DNS_SCHEME <= h && OPEN !in h)
  {
    var raw := ParseServer(w, ip6).0.raw;
    var t := w[3] % 16;
    if t == TYPE_REDIRECT {
      var h := ParseServer(w, ip6).0.host;
      assert [OPEN] + DNS_SCHEME <= h ==> h[0] == ([OPEN] + DNS_SCHEME)[0] == OPEN;
      assert DNS_SCHEME <= h ==> h[0] == DNS_SCHEME[0] == 100;
      assert CONTROL_SCHEME <= h ==> h[0] == CONTROL_SCHEME[0] == 82;
    } else {
      var host := if t == TYPE_IPV4 then IPv4Text(raw[4..8])
                  else if t == TYPE_IPV6 then ip6(raw[4..20])
                  else raw[5..|raw| - 2];
      DispatchJoined(host, Port(raw[|raw| - 2..]));
    }
  }

  /** Such a request: eleven bytes that pass every check of the parser and make the dispatch panic. */
  lemma RedirectCanCrash(ip6: Bytes -> Bytes)
    ensures var w: Bytes := [5, 1, 0, 9, 6] + DNS_SCHEME;
      && |w| == 11 && HeaderOk(w)
      && ParseServer(w, ip6) == (Request(DNS_SCHEME, w, false), []) && Dispatch(DNS_SCHEME).IndexPanic?
  {
    var w: Bytes := [5, 1, 0, 9, 6] + DNS_SCHEME;
    assert w[..11] == w && w[5..11] == DNS_SCHEME && w[11..] == [];
    assert forall i | 0 <= i < 6 :: DNS_SCHEME[i] != OPEN;
    assert !(CONTROL_SCHEME <= DNS_SCHEME) by {
      assert CONTROL_SCHEME[0] != DNS_SCHEME[0];
    }
  }
}
