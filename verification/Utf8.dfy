/** UTF-8 as Go's unicode/utf8 encodes and decodes it (section 3 of RFC 3629). */
module Utf8 {
  import opened Wrappers

  predicate IsScalar(r: int) { 0 <= r <= 0x10FFFF && !(0xD800 <= r <= 0xDFFF) }

  type Scalar = r: int | IsScalar(r)

  const RUNE_ERROR: Scalar := 0xFFFD

  /** What utf8.EncodeRune writes for any 32-bit value: out-of-range ones become U+FFFD. */
  function Canon(r: int): Scalar { if IsScalar(r) then r else RUNE_ERROR }

  function Encode(r: Scalar): (b: Bytes)
    ensures 1 <= |b| <= 4
  {
    assert IsScalar(r);
    var r: int := r;
    if r < 0x80 then [r]
    else if r < 0x800 then [0xC0 + r / 64, 0x80 + r % 64]
    else if r < 0x10000 then [0xE0 + r / 4096, 0x80 + r / 64 % 64, 0x80 + r % 64]
    else
      assert r / 262144 <= 4;
      [0xF0 + r / 262144, 0x80 + r / 4096 % 64, 0x80 + r / 64 % 64, 0x80 + r % 64]
  }

  predicate Cont(b: byte) { 0x80 <= b < 0xC0 }

  /** The bytes allowed after a three- or four-byte lead: no overlong forms, no surrogates, nothing above U+10FFFF. */
  predicate SecondOk(lead: byte, b: byte) {
    && Cont(b)
    && (lead == 0xE0 ==> b >= 0xA0)
    && (lead == 0xED ==> b < 0xA0)
    && (lead == 0xF0 ==> b >= 0x90)
    && (lead == 0xF4 ==> b < 0x90)
  }

  /** utf8.DecodeRune: the first rune and its size; a malformed start is U+FFFD of size 1. */
  function DecodeRune(s: Bytes): (p: (int, nat))
    ensures |s| > 0 ==> 1 <= p.1 <= |s|
  {
    if |s| == 0 then (RUNE_ERROR, 0)
    else
      var b0 := s[0] as int;
      if b0 < 0x80 then (b0, 1)
      else if 0xC2 <= b0 < 0xE0 && |s| >= 2 && Cont(s[1]) then ((b0 - 0xC0) * 64 + (s[1] - 0x80) as int, 2)
      else if 0xE0 <= b0 < 0xF0 && |s| >= 3 && SecondOk(s[0], s[1]) && Cont(s[2]) then
        ((b0 - 0xE0) * 4096 + (s[1] as int - 0x80) * 64 + (s[2] as int - 0x80), 3)
      else if 0xF0 <= b0 <= 0xF4 && |s| >= 4 && SecondOk(s[0], s[1]) && Cont(s[2]) && Cont(s[3]) then
        ((b0 - 0xF0) * 262144 + (s[1] as int - 0x80) * 4096 + (s[2] as int - 0x80) * 64 + (s[3] as int - 0x80), 4)
      else (RUNE_ERROR, 1)
  }

  /** The scan of utf8.DecodeLastRune: back over continuation bytes, at most to `lim`. */
  function ScanBack(s: Bytes, start: int, lim: nat): (i: int)
    requires lim - 1 <= start < |s|
    ensures lim - 1 <= i <= start
    decreases start + 1
  {
    if start < lim || !Cont(s[start]) then start else ScanBack(s, start - 1, lim)
  }

  /** utf8.DecodeLastRune. */
  function DecodeLastRune(s: Bytes): (int, nat) {
    var end := |s|;
    if end == 0 then (RUNE_ERROR, 0)
    else if s[end - 1] < 0x80 then (s[end - 1], 1)
    else
      var lim := if end < 4 then 0 else end - 4;
      var found := ScanBack(s, end - 2, lim);
      var start := if found < 0 then 0 else found;
      var (r, size) := DecodeRune(s[start..]);
      if start + size != end then (RUNE_ERROR, 1) else (r, size)
  }

  lemma ThreeByteLead(r: Scalar)
    requires 0x800 <= r < 0x10000
    ensures r / 4096 < 16 && r == r / 4096 * 4096 + r / 64 % 64 * 64 + r % 64
    ensures SecondOk(0xE0 + r / 4096, 0x80 + r / 64 % 64)
  {
    assert IsScalar(r);
    var q := r / 64;
    assert r == q * 64 + r % 64 && q / 64 == r / 4096 && q == r / 4096 * 64 + q % 64;
  }

  lemma FourByteLead(r: Scalar)
    requires 0x10000 <= r
    ensures r / 262144 <= 4
    ensures r == r / 262144 * 262144 + r / 4096 % 64 * 4096 + r / 64 % 64 * 64 + r % 64
    ensures SecondOk(0xF0 + r / 262144, 0x80 + r / 4096 % 64)
  {
    assert IsScalar(r);
    var q, p := r / 64, r / 4096;
    assert r == q * 64 + r % 64 && q / 64 == p && q == p * 64 + q % 64;
    assert p / 64 == r / 262144 && p == r / 262144 * 64 + p % 64;
  }

  lemma DecodeEncode(r: Scalar, rest: Bytes)
    ensures DecodeRune(Encode(r) + rest) == (r, |Encode(r)|)
  {
    assert IsScalar(r);
    var s := Encode(r) + rest;
    if 0x80 <= r < 0x800 {
      assert s[0] == 0xC0 + r / 64 && s[1] == 0x80 + r % 64;
    } else if 0x800 <= r < 0x10000 {
      assert s[0] == 0xE0 + r / 4096 && s[1] == 0x80 + r / 64 % 64 && s[2] == 0x80 + r % 64;
      ThreeByteLead(r);
    } else if r >= 0x10000 {
      assert s[0] == 0xF0 + r / 262144 && s[1] == 0x80 + r / 4096 % 64;
      assert s[2] == 0x80 + r / 64 % 64 && s[3] == 0x80 + r % 64;
      FourByteLead(r);
    }
  }

  function EncodeAll(rs: seq<Scalar>): Bytes {
    if rs == [] then [] else EncodeAll(rs[..|rs| - 1]) + Encode(rs[|rs| - 1])
  }

  lemma {:induction false} EncodeAppend(a: seq<Scalar>, b: seq<Scalar>)
    ensures EncodeAll(a + b) == EncodeAll(a) + EncodeAll(b)
  {
    hide Encode;
    if b == [] {
      assert a + b == a;
    } else {
      var n := |b| - 1;
      assert (a + b)[..|a + b| - 1] == a + b[..n];
      EncodeAppend(a, b[..n]);
    }
  }

  /** The byte offset of rune `k`. */
  function Offset(rs: seq<Scalar>, k: nat): nat
    requires k <= |rs|
  {
    |EncodeAll(rs[..k])|
  }

  /** The runes of any bytes, decoded from the front; each malformed start counts as one rune. */
  function DecodeAll(s: Bytes): seq<int> {
    if s == [] then [] else [DecodeRune(s).0] + DecodeAll(s[DecodeRune(s).1..])
  }

  /** Decoding a whole text gives back its runes. */
  lemma {:induction false} DecodeAllEncoded(rs: seq<Scalar>)
    ensures DecodeAll(EncodeAll(rs)) == rs
  {
    if rs != [] {
      var rest := EncodeAll(rs[1..]);
      EncodeFirst(rs);
      DecodeEncode(rs[0], rest);
      assert (Encode(rs[0]) + rest)[|Encode(rs[0])|..] == rest;
      DecodeAllEncoded(rs[1..]);
      assert rs == [rs[0]] + rs[1..];
    }
  }

  lemma CutAt(rs: seq<Scalar>, k: nat)
    requires k <= |rs|
    ensures Offset(rs, k) <= |EncodeAll(rs)|
    ensures EncodeAll(rs)[..Offset(rs, k)] == EncodeAll(rs[..k])
    ensures EncodeAll(rs)[Offset(rs, k)..] == EncodeAll(rs[k..])
    ensures k < |rs| ==> Offset(rs, k) < |EncodeAll(rs)|
  {
    assert rs == rs[..k] + rs[k..];
    EncodeAppend(rs[..k], rs[k..]);
    if k < |rs| {
      EncodeFirst(rs[k..]);
    }
  }

  lemma EncodeFirst(rs: seq<Scalar>)
    requires |rs| > 0
    ensures EncodeAll(rs) == Encode(rs[0]) + EncodeAll(rs[1..])
  {
    hide Encode;
    var one := [rs[0]];
    assert rs == one + rs[1..];
    EncodeAppend(one, rs[1..]);
    assert one[..0] == [];
    assert EncodeAll(one) == Encode(rs[0]);
  }

  lemma OffsetNext(rs: seq<Scalar>, k: nat)
    requires k < |rs|
    ensures Offset(rs, k + 1) == Offset(rs, k) + |Encode(rs[k])|
  {
    assert rs[..k + 1][..k] == rs[..k];
  }

  /** Cutting the bytes of rune `k` out of a text leaves the text without that rune. */
  lemma CutOneOut(rs: seq<Scalar>, k: nat, next: nat)
    requires k < |rs| && next == Offset(rs, k + 1)
    ensures next <= |EncodeAll(rs)| && Offset(rs, k) <= |EncodeAll(rs)|
    ensures EncodeAll(rs)[..Offset(rs, k)] + EncodeAll(rs)[next..] == EncodeAll(rs[..k] + rs[k + 1..])
  {
    CutAt(rs, k);
    CutAt(rs, k + 1);
    EncodeAppend(rs[..k], rs[k + 1..]);
  }

  /** Decoding at the offset of rune `k` yields that rune; it ends at the offset of the next. */
  lemma DecodeAt(rs: seq<Scalar>, k: nat)
    requires k < |rs|
    ensures Offset(rs, k) <= |EncodeAll(rs)|
    ensures DecodeRune(EncodeAll(rs)[Offset(rs, k)..]) == (rs[k], |Encode(rs[k])|)
  {
    CutAt(rs, k);
    var tail := rs[k..];
    EncodeFirst(tail);
    DecodeEncode(rs[k], EncodeAll(tail[1..]));
  }

  lemma ScanFindsLead(s: Bytes, e: Bytes)
    requires 2 <= |e| <= 4 && !Cont(e[0]) && (forall i | 1 <= i < |e| :: Cont(e[i]))
    ensures var t := s + e; var lim := if |t| < 4 then 0 else |t| - 4;
      ScanBack(t, |t| - 2, lim) == |s|
  {
    var t := s + e;
    var lim := if |t| < 4 then 0 else |t| - 4;
    assert t[|s|] == e[0];
    assert ScanBack(t, |s|, lim) == |s|;
    if |e| > 2 {
      assert t[|s| + 1] == e[1];
      assert ScanBack(t, |s| + 1, lim) == |s|;
    }
    if |e| > 3 {
      assert t[|s| + 2] == e[2];
      assert ScanBack(t, |s| + 2, lim) == |s|;
    }
  }

  /** Decoding backwards from a rune boundary yields the last rune. */
  lemma DecodeLastAt(s: Bytes, r: Scalar)
    ensures DecodeLastRune(s + Encode(r)) == (r, |Encode(r)|)
  {
    hide DecodeRune, ScanBack;
    var e := Encode(r);
    var t := s + e;
    assert t[|t| - 1] == e[|e| - 1];
    if r >= 0x80 {
      ScanFindsLead(s, e);
      assert t[|s|..] == e + [];
      DecodeEncode(r, []);
    }
  }

  // ------------------------------------------------------------ the table of section 3 of RFC 3629

  /** The bits of a scalar value and the bytes they are sent in. */
  lemma EncodeBits(r: Scalar, x: nat, y: nat, z: nat, v: nat)
    requires x < 64 && y < 64 && z < 64
    ensures r < 0x80 ==> Encode(r) == [r]
    ensures 0x80 <= r < 0x800 && r == x * 64 + y ==> Encode(r) == [0xC0 + x, 0x80 + y]
    ensures 0x800 <= r < 0x10000 && r == x * 4096 + y * 64 + z ==> Encode(r) == [0xE0 + x, 0x80 + y, 0x80 + z]
    ensures 0x10000 <= r && r == v * 262144 + x * 4096 + y * 64 + z ==>
      Encode(r) == [0xF0 + v, 0x80 + x, 0x80 + y, 0x80 + z]
  {
    assert IsScalar(r);
    if 0x800 <= r < 0x10000 && r == x * 4096 + y * 64 + z {
      assert r / 64 == x * 64 + y && r / 4096 == x;
    } else if 0x10000 <= r && r == v * 262144 + x * 4096 + y * 64 + z {
      assert r / 64 == (v * 64 + x) * 64 + y && r / 4096 == v * 64 + x && r / 262144 == v;
    }
  }

  /** Decoding finds a rune exactly when the bytes start with the form of one, and then that rune; any other
      start counts as one byte of U+FFFD. */
  lemma DecodeSound(s: Bytes)
    requires s != []
    ensures var (r, n) := DecodeRune(s);
      if exists x: Scalar :: Encode(x) <= s
      then IsScalar(r) && Encode(r) <= s && n == |Encode(r)|
      else (r, n) == (0xFFFD, 1)
  {
    hide DecodeRune, Encode;
    if DecodeRune(s) != (RUNE_ERROR, 1) {
      DecodedIsEncoded(s);
    }
    if x: Scalar :| Encode(x) <= s {
      DecodeEncode(x, s[|Encode(x)|..]);
      assert Encode(x) + s[|Encode(x)|..] == s;
    }
  }

  lemma DecodedIsEncoded(s: Bytes)
    requires s != [] && DecodeRune(s) != (RUNE_ERROR, 1)
    ensures IsScalar(DecodeRune(s).0) && Encode(DecodeRune(s).0) <= s
  {
    var (r, n) := DecodeRune(s);
    assert forall i | 0 <= i < n :: 0 <= s[i] < 256;
    if n == 2 {
      EncodeBits(r, s[0] - 0xC0, s[1] - 0x80, 0, 0);
    } else if n == 3 {
      EncodeBits(r, s[0] - 0xE0, s[1] - 0x80, s[2] - 0x80, 0);
    } else if n == 4 {
      EncodeBits(r, s[1] - 0x80, s[2] - 0x80, s[3] - 0x80, s[0] - 0xF0);
    }
  }
}
