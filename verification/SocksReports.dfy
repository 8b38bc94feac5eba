/** Everything the two request parsers and the dispatch report, in terms of the bytes on the wire
    (section 4 of RFC 1928; connections/prosocks5/socks5.go:228-325 and 423-542,
    connections/base/proxytunnel.go:211-222). */
module SocksReports {
  import opened Wrappers
  import opened Decimal
  import opened Socks5
  import opened SocksText
  import opened SocksTheorems

  // ------------------------------------------------------------ the server's parser

  /** How many bytes the server parser takes for a request. */
  function ServerTakes(w: Bytes): nat
    requires |w| >= 4
  {
    var t := w[3] % 16;
    if t == 1 then 10 else if t == 4 then 26 else if |w| < 5 then 5 else w[4] as int + (if t == 3 then 7 else 5)
  }

  /** A host and a port in network byte order at the end of a request. */
  ghost predicate Joins(text: Bytes, host: Bytes, raw: Bytes)
    requires |raw| >= 2
  {
    var (h, p) := SplitHostPort(text);
    h == host && Digits(p) == Some(raw[|raw| - 2] as nat * 256 + raw[|raw| - 1] as nat)
  }

  lemma JoinsPort(host: Bytes, raw: Bytes)
    requires |raw| >= 2
    ensures Joins(JoinHostPort(host, Itoa(Port(raw[|raw| - 2..]))), host, raw)
  {
    hide JoinHostPort, Itoa, Digits, SplitHostPort;
    SplitJoined(host, Port(raw[|raw| - 2..]));
    DigitsItoa(Port(raw[|raw| - 2..]));
  }

  /** What the parser reports about a stream with a known version and command: exactly when the address type
      is refused, exactly when bytes are missing, and otherwise the request, the rest of the stream, the UDP
      flag, and host and port as they stand in the request. */
  lemma ServerReports(w: Bytes, ip6: Bytes -> Bytes)
    requires |w| >= 4
    ensures var (res, rest) := ParseServer(w, ip6);
      var t := w[3] % 16;
      && (res.Unsupported? <==> t !in {1, 3, 4, 9}) && (res.Unsupported? ==> rest == w[4..])
      && (res.Short? <==> t in {1, 3, 4, 9} && |w| < ServerTakes(w)) && (res.Short? ==> rest == [])
      && (res.Request? <==> t in {1, 3, 4, 9} && |w| >= ServerTakes(w))
      && (res.Request? ==> ReportsRequest(res.host, res.raw, res.isUdp, ip6)
                           && w == res.raw + rest && |res.raw| == ServerTakes(w))
  {
    hide ReportsRequest, Joins, SplitHostPort, ServerRequest;
    var (res, rest) := ParseServer(w, ip6);
    var t := w[3] % 16;
    if t in {1, 3, 4, 9} && |w| >= ServerTakes(w) {
      var raw := w[..ServerTakes(w)];
      assert raw[3] == w[3] && raw[1] == w[1] && (|w| >= 5 ==> raw[4] == w[4]);
      RequestReports(raw, ip6);
    }
  }

  /** The parts of a request and where they stand in its bytes. */
  ghost predicate ReportsRequest(host: Bytes, raw: Bytes, isUdp: bool, ip6: Bytes -> Bytes) {
    && |raw| >= 5 && (isUdp <==> raw[1] == 3)
    && match raw[3] % 16
       case 1 => |raw| == 10 && Joins(host, SplitHostPort(host).0, raw) && DottedQuad(SplitHostPort(host).0, raw[4..8])
       case 3 => |raw| == raw[4] as int + 7 && Joins(host, raw[5..|raw| - 2], raw)
       case 4 => |raw| == 26 && Joins(host, ip6(raw[4..20]), raw)
       case _ => |raw| == raw[4] as int + 5 && host == raw[5..]
  }

  lemma RequestReports(raw: Bytes, ip6: Bytes -> Bytes)
    requires |raw| >= 5 && ServerEnd(raw) == Some(|raw|) && raw[3] % 16 in {1, 3, 4, 9}
    ensures var res := ServerRequest(raw, ip6);
      res.Request? && res.raw == raw && ReportsRequest(res.host, raw, res.isUdp, ip6)
  {
    hide Joins, SplitHostPort, DottedQuad, JoinHostPort, Itoa, IPv4Text, Port;
    var t := raw[3] % 16;
    if t == 1 {
      JoinsPort(IPv4Text(raw[4..8]), raw);
      IPv4ReadsBack(raw[4..8]);
      JoinsHost(IPv4Text(raw[4..8]), raw);
    } else if t == 4 {
      JoinsPort(ip6(raw[4..20]), raw);
    } else if t == 3 {
      JoinsPort(raw[5..|raw| - 2], raw);
    }
  }

  lemma JoinsHost(host: Bytes, raw: Bytes)
    requires |raw| >= 2
    ensures SplitHostPort(JoinHostPort(host, Itoa(Port(raw[|raw| - 2..])))).0 == host
  {
    SplitJoined(host, Port(raw[|raw| - 2..]));
  }

  // ------------------------------------------------------------ the local parser

  /** The length a request of a known address type announces. */
  function LocalTakes(w: Bytes): nat
    requires |w| >= 5
  {
    if w[3] == 1 then 10 else if w[3] == 4 then 22 else w[4] as int + (if w[3] == 3 then 7 else 5)
  }

  /** What the local parser reports when its first read took `n` bytes: exactly when it refuses, panics or
      runs short, and otherwise the request, the rest of the stream, the UDP flag and the port. */
  lemma LocalReports(w: Bytes, n: nat)
    requires 5 <= n <= |w|
    ensures var (res, rest) := ParseLocal(w, n);
      var version, command, kind := w[0] in {4, 5}, w[1] in {1, 3}, w[3] in {1, 3, 4, 5};
      var fits := version && command && kind && !(w[3] in {3, 5} && w[4] > 250);
      && (res.BadVersion? <==> !version)
      && (res.BadCommand? <==> version && !command)
      && (res.BadAddrType? <==> version && command && !kind)
      && (res.ExtraData? <==> fits && n > LocalTakes(w))
      && (res.ShortRead? <==> fits && n <= LocalTakes(w) && |w| < LocalTakes(w))
      && (res.Accepted? <==> fits && n <= LocalTakes(w) <= |w|)
      && (if res.Accepted? then w == res.raw + rest else if res.ShortRead? then rest == [] else rest == w[n..])
      && (res.Accepted? ==>
            && |res.raw| == LocalTakes(w) && (res.isUdp <==> w[1] == 3)
            && (w[3] in {1, 4} ==> res.host == [])
            && Digits(res.port) == Some(res.raw[|res.raw| - 2] as nat * 256 + res.raw[|res.raw| - 1] as nat))
  {
    hide Itoa, Digits;
    var len := LocalTakes(w);
    if len <= |w| && w[3] in {1, 3, 4, 5} {
      var raw := w[..len];
      assert w == raw + w[len..] && w[len - 2..len] == raw[len - 2..];
      DigitsItoa(Port(w[len - 2..len]));
    }
  }

  // ------------------------------------------------------------ the dispatch

  predicate Bracket(b: byte) { b == 91 || b == 93 }

  /** Unbracketing gives what stands after the first `[` up to the next bracket of either kind. */
  lemma UnbracketMeans(before: Bytes, inside: Bytes, after: Bytes)
    requires 91 !in before && 91 !in inside && 93 !in inside && (after == [] || Bracket(after[0]))
    ensures Unbracket(before + [91] + inside + after) == Some(inside)
    ensures Unbracket(before) == None
  {
    hide Unbracket, Cut;
    var host := before + [91] + inside + after;
    assert host[|before|] == 91 && host[..|before|] == before && host[|before| + 1..] == inside + after;
    IndexAt(host, OPEN, |before|);
    CutInside(inside, after);
    UnbracketCuts(host);
    UnbracketCuts(before);
  }

  lemma UnbracketCuts(host: Bytes)
    ensures Unbracket(host) == if OPEN in host then Some(Cut(host[IndexOf(host, OPEN) + 1..])) else None
  {
  }

  lemma CutInside(inside: Bytes, after: Bytes)
    requires 91 !in inside && 93 !in inside && (after == [] || Bracket(after[0]))
    ensures Cut(inside + after) == inside
  {
    var s := inside + after;
    var i := IndexOf(s, OPEN);
    assert forall k | 0 <= k < |inside| :: s[k] == inside[k];
    assert i >= |inside|;
    var piece := s[..i];
    assert piece[..|inside|] == inside;
    assert |inside| < i ==> piece[|inside|] == after[0] == CLOSE;
    IndexAt(piece, CLOSE, |inside|);
  }

  /** The routes by the first bytes of the host: `R://`, then `dns://` or `[dns://`, then everything else. */
  lemma RoutesByScheme(host: Bytes)
    ensures var r := Dispatch(host);
      var control := [82, 58, 47, 47] <= host;
      var dns := [100, 110, 115, 58, 47, 47] <= host || [91, 100, 110, 115, 58, 47, 47] <= host;
      && (r.Control? <==> control) && (r.Tcp? <==> !control && !dns)
      && (r.Dns? <==> !control && dns && 91 in host) && (r.IndexPanic? <==> !control && dns && 91 !in host)
      && (r.Control? || r.Tcp? ==> r.host == host) && (r.Dns? ==> Unbracket(host) == Some(r.host))
  {
    assert [OPEN] + DNS_SCHEME == [91, 100, 110, 115, 58, 47, 47];
    assert [OPEN] + DNS_SCHEME <= host ==> host[0] == 91;
  }
}
