/** The SOCKS5 request encoder and its two parsers (connections/prosocks5/socks5.go:73-88, 228-325, 423-542). */
module Socks5 {
  import opened Wrappers
  import opened Decimal
  import opened NetStream

  const VER5: byte := 5
  const VER4: byte := 4
  const CMD_CONNECT: byte := 1
  const CMD_UDP: byte := 3
  const TYPE_IPV4 := 1
  const TYPE_DOMAIN := 3
  const TYPE_IPV6 := 4
  const TYPE_REDIRECT := 9
  const COLON: byte := 58

  // ------------------------------------------------------------ text forms

  /** net.JoinHostPort: a host with a colon is bracketed. */
  function JoinHostPort(host: Bytes, port: Bytes): Bytes {
    if COLON in host then [91] + host + [93, COLON] + port else host + [COLON] + port
  }

  function IPv4Text(a: Bytes): Bytes
    requires |a| == 4
  {
    Itoa(a[0]) + [46] + Itoa(a[1]) + [46] + Itoa(a[2]) + [46] + Itoa(a[3])
  }

  function BigEndian16(n: int): Bytes {
    [n / 256 % 256, n % 256]
  }

  function Port(b: Bytes): nat
    requires |b| == 2
  {
    b[0] as int * 256 + b[1] as int
  }

  // ------------------------------------------------------------ the encoder

  /** The position of the first colon, or the length. */
  function ColonAt(s: Bytes): (i: nat)
    ensures i <= |s|
    ensures i < |s| <==> COLON in s
    ensures i < |s| ==> s[i] == COLON
    ensures COLON !in s[..i]
  {
    if s == [] || s[0] == COLON then 0
    else
      var i := ColonAt(s[1..]);
      assert s[..1 + i] == [s[0]] + s[1..][..i];
      assert s == [s[0]] + s[1..];
      1 + i
  }

  /** The host and port that are encoded: port -1 asks to split them out of the text. */
  function Target(host: Bytes, port: int): (Bytes, int) {
    if port == -1 && COLON in host then (host[..ColonAt(host)], Atoi(host[ColonAt(host) + 1..])) else (host, port)
  }

  function EncodeDomain(host: Bytes, port: int): Bytes {
    [5, 1, 0, 3, |host| % 256] + host + BigEndian16(port % 65536)
  }

  /** Lines 73-88: the buffer is grown by appending. */
  method HostToRaw(host: Bytes, port: int) returns (raw: Bytes)
    ensures raw == EncodeDomain(Target(host, port).0, Target(host, port).1)
    ensures port != -1 || COLON !in host ==>
      raw == [5, 1, 0, 3, |host| % 256] + host + [port / 256 % 256, port % 256]
    ensures forall h, rest | host == h + [COLON] + rest && COLON !in h && port == -1 ::
      raw == [5, 1, 0, 3, |h| % 256] + h + [Atoi(rest) / 256 % 256, Atoi(rest) % 256]
  {
    raw := [];
    var h, p := host, port;
    if port == -1 && COLON in host {
      var at := ColonAt(host);
      h := host[..at];
      p := Atoi(host[at + 1..]);
    }
    raw := raw + [5, 1, 0, 3, |h| % 256];
    raw := raw + h;
    raw := raw + BigEndian16(p % 65536);
    NetworkOrder(p);
    forall g, rest | host == g + [COLON] + rest && COLON !in g && port == -1 ensures h == g && p == Atoi(rest) {
      FirstColon(g, rest);
      assert host[..|g|] == g && host[|g| + 1..] == rest;
    }
  }

  /** The port is sent with its high byte first. */
  lemma NetworkOrder(p: int)
    ensures BigEndian16(p % 65536) == [p / 256 % 256, p % 256]
  {
    var q, r := p / 65536, p % 65536;
    assert p == 65536 * q + r;
    assert p / 256 == 256 * q + r / 256;
    assert p % 256 == r % 256;
  }

  lemma FirstColon(host: Bytes, rest: Bytes)
    requires COLON !in host
    ensures ColonAt(host + [COLON] + rest) == |host|
  {
    var s := host + [COLON] + rest;
    var i := ColonAt(s);
    assert s[|host|] == COLON;
    assert forall k | 0 <= k < |host| :: s[k] == host[k];
  }

  // ------------------------------------------------------------ the server's parser

  datatype ServerResult =
    | Request(host: Bytes, raw: Bytes, isUdp: bool)
    | NotSocks(got: Bytes)
    | Unsupported
    | Short

  predicate HeaderOk(w: Bytes)
    requires |w| >= 4
  {
    (w[0] == VER5 || w[0] == VER4) && (w[1] == CMD_CONNECT || w[1] == CMD_UDP)
  }

  /** How far the request on `w` extends; `None` while the length byte is missing. */
  function ServerEnd(w: Bytes): Option<nat>
    requires |w| >= 4
  {
    match w[3] % 16
    case 1 => Some(10)
    case 4 => Some(26)
    case 3 => if |w| < 5 then None else Some(w[4] as int + 7)
    case 9 => if |w| < 5 then None else Some(w[4] as int + 5)
    case _ => None
  }

  /** What the parser reads out of a complete request of an accepted type. */
  function ServerRequest(raw: Bytes, ip6: Bytes -> Bytes): ServerResult
    requires |raw| >= 5 && ServerEnd(raw) == Some(|raw|)
  {
    var udp := raw[1] == CMD_UDP;
    var t := raw[3] % 16;
    if t == TYPE_REDIRECT then Request(raw[5..], raw, udp)
    else
      var host := if t == TYPE_IPV4 then IPv4Text(raw[4..8])
                  else if t == TYPE_IPV6 then ip6(raw[4..20])
                  else raw[5..|raw| - 2];
      Request(JoinHostPort(host, Itoa(Port(raw[|raw| - 2..]))), raw, udp)
  }

  /** The parser as a function of the bytes up to end of stream, for a recognised version and command. */
  function ParseServer(w: Bytes, ip6: Bytes -> Bytes): (ServerResult, Bytes)
    requires |w| >= 4
  {
    var t := w[3] % 16;
    if t != TYPE_IPV4 && t != TYPE_IPV6 && t != TYPE_DOMAIN && t != TYPE_REDIRECT then (Unsupported, w[4..])
    else match ServerEnd(w)
      case None => (Short, [])
      case Some(end) => if |w| < end then (Short, []) else (ServerRequest(w[..end], ip6), w[end..])
  }

  /** io.ReadFull into a part of a buffer. */
  method ReadInto(conn: NetConn, buf: array<byte>, start: nat, end: nat) returns (ok: bool)
    requires start <= end <= buf.Length
    modifies conn`inbox, buf
    ensures var n := end - start; var w := old(conn.inbox);
      && (ok <==> n <= |w|)
      && conn.inbox == w[Min(n, |w|)..]
      && (ok ==> buf[start..end] == w[..n] && buf[..end] == old(buf[..start]) + w[..n])
      && buf[..start] == old(buf[..start])
  {
    var data;
    data, ok := conn.ReadFull(end - start);
    forall i | 0 <= i < |data| {
      buf[start + i] := data[i];
    }
    if ok {
      assert buf[..end] == buf[..start] + buf[start..end];
    }
  }

  /** Reading on from byte `i` to byte `j`. */
  lemma ReadOn(w: Bytes, i: nat, j: nat)
    requires i <= j <= |w|
    ensures w[..j] == w[..i] + w[i..][..j - i]
  {
  }

  /** Lines 522-541: read host and port out of the filled part of the buffer. */
  method ParseBuffer(buf: array<byte>, reqEnd: nat, ip6: Bytes -> Bytes) returns (res: ServerResult)
    requires 5 <= reqEnd <= buf.Length && ServerEnd(buf[..reqEnd]) == Some(reqEnd)
    ensures res == ServerRequest(buf[..reqEnd], ip6)
  {
    hide Itoa, JoinHostPort, IPv4Text;
    ghost var raw := buf[..reqEnd];
    assert buf[1] == raw[1] && buf[3] == raw[3] && buf[4] == raw[4];
    var t, udp := buf[3] % 16, buf[1] == CMD_UDP;
    var host;
    if t == TYPE_IPV4 {
      assert buf[4..8] == raw[4..8];
      host := IPv4Text(buf[4..8]);
    } else if t == TYPE_IPV6 {
      assert buf[4..20] == raw[4..20];
      host := ip6(buf[4..20]);
    } else {
      var n := buf[4] as int;
      assert buf[5..5 + n] == raw[5..5 + n];
      host := buf[5..5 + n];
      if t == TYPE_REDIRECT {
        return Request(host, buf[..reqEnd], udp);
      }
    }
    assert buf[reqEnd - 2..reqEnd] == raw[reqEnd - 2..];
    var port := buf[reqEnd - 2] as int * 256 + buf[reqEnd - 1] as int;
    assert port == Port(raw[reqEnd - 2..]);
    return Request(JoinHostPort(host, Itoa(port)), buf[..reqEnd], udp);
  }

  /** Lines 481-517: the address type decides how much more is read. */
  method FillBuffer(conn: NetConn, buf: array<byte>, ghost w: Bytes) returns (reqEnd: nat, bad: ServerResult)
    requires buf.Length == 269 && |w| >= 4 && buf[..4] == w[..4] && conn.inbox == w[4..]
    modifies conn`inbox, buf
    ensures reqEnd == 0 ==> forall ip6 :: (bad, conn.inbox) == ParseServer(w, ip6)
    ensures reqEnd > 0 ==> 5 <= reqEnd <= |w| && reqEnd <= 269 && ServerEnd(w) == Some(reqEnd)
                           && buf[..reqEnd] == w[..reqEnd] && conn.inbox == w[reqEnd..]
  {
    hide ServerRequest;
    assert buf[3] == buf[..4][3] == w[3];
    var t := buf[3] % 16;
    var reqStart := 4;
    reqEnd := 10;
    if t == TYPE_IPV6 {
      reqEnd := 26;
    } else if t == TYPE_DOMAIN || t == TYPE_REDIRECT {
      var got := ReadInto(conn, buf, 4, 5);
      if !got {
        return 0, Short;
      }
      ReadOn(w, 4, 5);
      assert buf[4] == buf[..5][4] == w[4];
      reqStart, reqEnd := 5, buf[4] as int + (if t == TYPE_DOMAIN then 7 else 5);
    } else if t != TYPE_IPV4 {
      return 0, Unsupported;
    }
    assert conn.inbox == w[reqStart..];
    var ok := ReadInto(conn, buf, reqStart, reqEnd);
    if !ok {
      return 0, Short;
    }
    ReadOn(w, reqStart, reqEnd);
    return reqEnd, Short;
  }

  /** Lines 423-542. `ip6` is the text form of a 16-byte address. */
  method GetServerRequest(conn: NetConn, ip6: Bytes -> Bytes) returns (res: ServerResult)
    modifies conn`inbox
    ensures var w := old(conn.inbox);
      if |w| < 4 then res == Short && conn.inbox == []
      else if w[0] in {4, 5} && w[1] in {1, 3} then (res, conn.inbox) == ParseServer(w, ip6)
      else res.NotSocks? &&
           if |w| == 4 then res.got == [] && conn.inbox == []
           else 4 < |res.got| <= 1401 && res.got + conn.inbox == w
  {
    var buf := new byte[269](_ => 0);
    ghost var w := conn.inbox;
    var ok := ReadInto(conn, buf, 0, 4);
    if !ok {
      return Short;
    }
    assert buf[..4] == buf[0..4] == w[..4];
    assert forall i | 0 <= i < 4 :: buf[i] == w[i];
    if !((buf[0] == VER5 || buf[0] == VER4) && (buf[1] == CMD_UDP || buf[1] == CMD_CONNECT)) {
      var more := conn.ReadSome(1397);
      if more == [] {
        return NotSocks([]);
      }
      assert w == w[..4] + w[4..];
      return NotSocks(buf[..4] + more);
    }
    var reqEnd, bad := FillBuffer(conn, buf, w);
    if reqEnd == 0 {
      return bad;
    }
    res := ParseBuffer(buf, reqEnd, ip6);
  }

  // ------------------------------------------------------------ the local parser

  /** `SlicePanic`: a name longer than 250 bytes, whose byte-sized slice bound wraps. */
  datatype LocalResult =
    | Accepted(raw: Bytes, host: Bytes, port: Bytes, isUdp: bool)
    | BadVersion
    | BadCommand
    | BadAddrType
    | ExtraData
    | ShortRead
    | SlicePanic

  /** The length a request announces, for the address types the local parser knows. */
  function LocalLen(w: Bytes): Option<nat>
    requires |w| >= 5
  {
    if w[3] == 1 then Some(10)
    else if w[3] == 4 then Some(22)
    else if w[3] == 3 then Some(w[4] as int + 7)
    else if w[3] == 5 then Some(w[4] as int + 5)
    else None
  }

  /** The host text: taken from the zeroed buffer when only the first read, of `n` bytes, has filled it. */
  function LocalHost(w: Bytes, n: nat): Bytes
    requires 5 <= n <= |w|
  {
    if (w[3] == 3 || w[3] == 5) && w[4] <= 250 then (w[..n] + seq(250, _ => 0))[5..5 + w[4] as int] else []
  }

  lemma NoHost(w: Bytes, n: nat)
    requires 5 <= n <= |w| && w[3] != 3 && w[3] != 5
    ensures LocalHost(w, n) == []
  {
  }

  lemma BufferHost(buf: Bytes, w: Bytes, n: nat)
    requires 5 <= n <= |w| && n <= |buf| == 263 && buf[..n] == w[..n] && (forall i | n <= i < 263 :: buf[i] == 0)
    requires (w[3] == 3 || w[3] == 5) && w[4] <= 250
    ensures buf[5..5 + w[4] as int] == LocalHost(w, n)
  {
    var padded := w[..n] + seq(250, _ => 0);
    forall i | 0 <= i < 255 ensures buf[i] == padded[i] {
      assert i < n ==> buf[i] == buf[..n][i] == w[..n][i];
    }
    assert buf[5..5 + w[4] as int] == padded[5..5 + w[4] as int];
  }

  /** The parser on the bytes up to end of stream, when its first read returned `n` of them. */
  function ParseLocal(w: Bytes, n: nat): (LocalResult, Bytes)
    requires 5 <= n <= |w|
  {
    if w[0] != VER5 && w[0] != VER4 then (BadVersion, w[n..])
    else if w[1] != CMD_CONNECT && w[1] != CMD_UDP then (BadCommand, w[n..])
    else match LocalLen(w)
      case None => (BadAddrType, w[n..])
      case Some(len) =>
        if (w[3] == 3 || w[3] == 5) && w[4] > 250 then (SlicePanic, w[n..])
        else if n > len then (ExtraData, w[n..])
        else if |w| < len then (ShortRead, [])
        else (Accepted(w[..len], LocalHost(w, n), Itoa(Port(w[len - 2..len])), w[1] == CMD_UDP), w[len..])
  }

  /** Lines 276-281: the host text, or the panic of a slice whose byte-sized end has wrapped. */
  method SliceHost(buf: array<byte>, ghost w: Bytes, ghost n: nat) returns (host: Option<Bytes>)
    requires buf.Length == 263 && 5 <= n <= |w| && n <= 263 && buf[..n] == w[..n]
    requires forall i | n <= i < 263 :: buf[i] == 0
    ensures host == if (w[3] == 3 || w[3] == 5) && w[4] > 250 then None else Some(LocalHost(w, n))
  {
    hide LocalHost;
    assert buf[3] == buf[..n][3] == w[3] && buf[4] == buf[..n][4] == w[4];
    if buf[3] != 3 && buf[3] != 5 {
      NoHost(w, n);
      return Some([]);
    }
    var bound := (5 + buf[4] as int) % 256;
    if bound < 5 {
      return None;
    }
    BufferHost(buf[..], w, n);
    assert buf[5..bound] == buf[..][5..bound];
    return Some(buf[5..bound]);
  }

  /** Lines 228-325, with `debug` off; `n` is the size of the first read. */
  method GetLocalRequest(conn: NetConn) returns (res: LocalResult, ghost n: nat)
    modifies conn`inbox
    ensures var w := old(conn.inbox);
      if |w| < 5 then res == ShortRead && conn.inbox == []
      else 5 <= n <= Min(263, |w|) && (res, conn.inbox) == ParseLocal(w, n)
  {
    hide LocalHost, Itoa, Port;
    ghost var w := conn.inbox;
    var buf := new byte[263](_ => 0);
    var first, ok := conn.ReadAtLeast(5, 263);
    n := |first|;
    if !ok {
      return ShortRead, n;
    }
    forall i | 0 <= i < |first| {
      buf[i] := first[i];
    }
    assert w == first + conn.inbox && w[n..] == conn.inbox;
    assert buf[..n] == w[..n] && forall i | 0 <= i < 5 :: buf[i] == w[i];
    if buf[0] != VER5 && buf[0] != VER4 {
      return BadVersion, n;
    }
    if buf[1] != CMD_CONNECT && buf[1] != CMD_UDP {
      return BadCommand, n;
    }
    var len := LocalLen(buf[..5]);
    assert len == LocalLen(w);
    if len.None? {
      return BadAddrType, n;
    }
    var host := SliceHost(buf, w, n);
    if host.None? {
      return SlicePanic, n;
    }
    var reqLen := len.value;
    res := CompleteLocal(conn, buf, |first|, reqLen, host.value, w);
  }

  /** Lines 289-302: read what is missing of the announced length, or refuse what is too much. */
  method CompleteLocal(conn: NetConn, buf: array<byte>, first: nat, reqLen: nat, host: Bytes, ghost w: Bytes)
    returns (res: LocalResult)
    requires 5 <= first <= buf.Length && 5 <= reqLen <= buf.Length && first <= |w|
    requires buf[..first] == w[..first] && conn.inbox == w[first..]
    modifies conn`inbox, buf
    ensures (res, conn.inbox) ==
            if first > reqLen then (ExtraData, w[first..])
            else if |w| < reqLen then (ShortRead, [])
            else (Accepted(w[..reqLen], host, Itoa(Port(w[reqLen - 2..reqLen])), w[1] == CMD_UDP), w[reqLen..])
  {
    if first < reqLen {
      var got := ReadInto(conn, buf, first, reqLen);
      if !got {
        return ShortRead;
      }
      ReadOn(w, first, reqLen);
    } else if first > reqLen {
      return ExtraData;
    }
    assert buf[..reqLen] == w[..reqLen];
    assert buf[reqLen - 2..reqLen] == w[reqLen - 2..reqLen];
    assert buf[1] == w[..reqLen][1];
    return Accepted(buf[..reqLen], host, Itoa(Port(buf[reqLen - 2..reqLen])), buf[1] == CMD_UDP);
  }
}
