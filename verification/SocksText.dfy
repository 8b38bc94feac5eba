/** Reading back the texts the SOCKS5 parsers build: dotted addresses and joined host and port. */
module SocksText {
  import opened Wrappers
  import opened Decimal
  import opened Socks5

  // ------------------------------------------------------------ searching and splitting

  function IndexOf(s: Bytes, b: byte): (i: nat)
    ensures i <= |s| && b !in s[..i]
    ensures i < |s| <==> b in s
    ensures i < |s| ==> s[i] == b
  {
    if s == [] || s[0] == b then 0
    else
      var i := IndexOf(s[1..], b);
      assert s[..1 + i] == [s[0]] + s[1..][..i];
      assert s == [s[0]] + s[1..];
      1 + i
  }

  lemma IndexAt(s: Bytes, b: byte, i: nat)
    requires i <= |s| && b !in s[..i] && (i < |s| ==> s[i] == b)
    ensures IndexOf(s, b) == i
  {
    var j := IndexOf(s, b);
    assert forall k | 0 <= k < i :: s[..i][k] == s[k];
  }

  /** The pieces between the separators. */
  function SplitOn(s: Bytes, b: byte): seq<Bytes> {
    var i := IndexOf(s, b);
    if i == |s| then [s] else [s[..i]] + SplitOn(s[i + 1..], b)
  }

  lemma SplitFirst(piece: Bytes, b: byte, rest: Bytes)
    requires b !in piece
    ensures SplitOn(piece, b) == [piece]
    ensures SplitOn(piece + ([b] + rest), b) == [piece] + SplitOn(rest, b)
  {
    assert piece[..|piece|] == piece;
    IndexAt(piece, b, |piece|);
    var s := piece + ([b] + rest);
    assert s[..|piece|] == piece && s[|piece| + 1..] == rest;
    IndexAt(s, b, |piece|);
  }

  // ------------------------------------------------------------ IPv4 addresses

  const DOT: byte := 46

  /** Four numbers between dots, in the order of the bytes of the address. */
  predicate DottedQuad(text: Bytes, a: Bytes)
    requires |a| == 4
  {
    var ps := SplitOn(text, DOT);
    |ps| == 4 && forall i | 0 <= i < 4 :: Digits(ps[i]) == Some(a[i] as nat)
  }

  lemma IPv4ReadsBack(a: Bytes)
    requires |a| == 4
    ensures DottedQuad(IPv4Text(a), a)
  {
    hide Itoa, SplitOn, Digits;
    var p0, p1, p2, p3 := Itoa(a[0]), Itoa(a[1]), Itoa(a[2]), Itoa(a[3]);
    SplitFirst(p3, DOT, []);
    SplitFirst(p2, DOT, p3);
    SplitFirst(p1, DOT, p2 + ([DOT] + p3));
    SplitFirst(p0, DOT, p1 + ([DOT] + (p2 + ([DOT] + p3))));
    assert IPv4Text(a) == p0 + ([DOT] + (p1 + ([DOT] + (p2 + ([DOT] + p3)))));
    DigitsItoa(a[0]);
    DigitsItoa(a[1]);
    DigitsItoa(a[2]);
    DigitsItoa(a[3]);
  }

  // ------------------------------------------------------------ host and port

  /** The position of the last colon, or the length. */
  function LastColon(s: Bytes): (i: nat)
    ensures i <= |s|
    ensures i < |s| <==> COLON in s
    ensures i < |s| ==> s[i] == COLON && forall k | i < k < |s| :: s[k] != COLON
  {
    if s == [] then 0
    else
      var n := |s| - 1;
      assert s == s[..n] + [s[n]];
      if s[n] == COLON then n
      else
        var i := LastColon(s[..n]);
        assert forall k | 0 <= k < n :: s[k] == s[..n][k];
        if i == n then |s| else i
  }

  /** The host and the port of a joined text: cut at the last colon, brackets around a host with colons removed. */
  function SplitHostPort(s: Bytes): (Bytes, Bytes) {
    var i := LastColon(s);
    if i == |s| then (s, [])
    else
      var host := s[..i];
      if COLON in host && host[0] == 91 && host[i - 1] == 93 && i >= 2
      then (host[1..i - 1], s[i + 1..]) else (host, s[i + 1..])
  }

  lemma LastColonAt(front: Bytes, p: Bytes)
    requires COLON !in p
    ensures LastColon(front + [COLON] + p) == |front|
  {
    hide LastColon;
    var s := front + [COLON] + p;
    assert s[|front|] == COLON;
    forall k | |front| < k < |s| ensures s[k] != COLON {
      assert s[k] == p[k - |front| - 1];
    }
  }

  /** Joining loses nothing. */
  lemma SplitJoined(host: Bytes, port: nat)
    ensures SplitHostPort(JoinHostPort(host, Itoa(port))) == (host, Itoa(port))
  {
    hide Itoa, LastColon;
    var p := Itoa(port);
    if COLON in host {
      var front := [91] + host + [93];
      LastColonAt(front, p);
      CutJoined(front, p);
      assert JoinHostPort(host, p) == front + [COLON] + p;
      assert front[1..|front| - 1] == host && front[1 + ColonAt(host)] == COLON;
    } else {
      LastColonAt(host, p);
      CutJoined(host, p);
    }
  }

  lemma CutJoined(front: Bytes, p: Bytes)
    ensures var s := front + [COLON] + p; s[..|front|] == front && s[|front| + 1..] == p
  {
  }
}
