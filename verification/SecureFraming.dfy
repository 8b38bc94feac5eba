/** The length-prefixed encrypted packets of connections/prosss (ss_client.go:71-165, ss_server.go:166-257);
    client and server use the same code. */
module SecureFraming {
  import opened Wrappers
  import opened NetStream

  const NONCE_SIZE := 12
  const OVERHEAD := 28          // nonce and 16-byte tag, section 5.2 of RFC 5116
  const MAX_PACKET := 65536
  const MAX_PLAIN := 65507      // the longest plaintext whose packet length fits two bytes

  /** An authenticated cipher: seal with a nonce, open a packet or reject it. */
  datatype Cipher = Cipher(seal: (Bytes, Bytes) -> Bytes, open: Bytes -> Option<Bytes>)

  ghost predicate Sound(c: Cipher) {
    forall nonce, p | |nonce| == NONCE_SIZE ::
      |c.seal(nonce, p)| == |p| + OVERHEAD && c.open(c.seal(nonce, p)) == Some(p)
  }

  function PadPacket(nonce: Bytes, p: Bytes): Bytes {
    nonce + p + seq(OVERHEAD - NONCE_SIZE, _ => 0)
  }

  /** The soundness assumption can be met: a packet that merely pads satisfies it. */
  lemma SoundCipherExists() returns (c: Cipher)
    ensures Sound(c)
  {
    c := Cipher((nonce: Bytes, p: Bytes) => PadPacket(nonce, p),
                (m: Bytes) => if |m| < OVERHEAD then None else Some(m[NONCE_SIZE..|m| - (OVERHEAD - NONCE_SIZE)]));
    forall nonce, p: Bytes | |nonce| == NONCE_SIZE
      ensures |c.seal(nonce, p)| == |p| + OVERHEAD && c.open(c.seal(nonce, p)) == Some(p) {
      var m := c.seal(nonce, p);
      assert m[NONCE_SIZE..|m| - (OVERHEAD - NONCE_SIZE)] == p;
    }
  }

  function Prefix(n: nat): Bytes {
    [n / 256 % 256, n % 256]
  }

  /** What a write puts on the wire. */
  function Frame(c: Cipher, nonce: Bytes, p: Bytes): Bytes {
    Prefix(|c.seal(nonce, p)|) + c.seal(nonce, p)
  }

  predicate Accepted(c: Cipher, nonce: Bytes, p: Bytes) {
    |c.seal(nonce, p)| <= MAX_PACKET
  }

  // ------------------------------------------------------------ reading, as a function of the stream

  /** The reader's view: the unread wire and the tail of the last packet. */
  datatype Reader = Reader(wire: Bytes, buf: Bytes, bufSize: nat) {
    predicate Valid() { bufSize <= |buf| }

    function Leftover(): Bytes
      requires Valid()
    {
      buf[|buf| - bufSize..]
    }
  }

  datatype ReadResult = Got(data: Bytes) | EndOfStream | BadPacket

  function PacketLen(wire: Bytes): nat
    requires |wire| >= 2
  {
    wire[0] as int * 256 + wire[1] as int
  }

  /** One Read call with a buffer of `k` bytes. */
  function ReadStep(c: Cipher, r: Reader, k: nat): (res: (Reader, ReadResult))
    requires r.Valid()
    ensures res.0.Valid()
  {
    if r.bufSize > 0 then
      var n := Min(k, r.bufSize);
      (Reader(r.wire, if r.bufSize == n then [] else r.buf, r.bufSize - n), Got(r.Leftover()[..n]))
    else if |r.wire| < 2 then (r.(wire := []), EndOfStream)
    else
      var len := PacketLen(r.wire);
      if len < NONCE_SIZE then (r.(wire := r.wire[2..]), BadPacket)
      else if |r.wire| < 2 + len then (r.(wire := []), EndOfStream)
      else
        var rest := r.wire[2 + len..];
        match c.open(r.wire[2..2 + len])
        case None => (r.(wire := rest), BadPacket)
        case Some(p) =>
          if |p| <= k then (r.(wire := rest), Got(p))
          else (Reader(rest, p, |p| - k), Got(p[..k]))
  }

  // ------------------------------------------------------------ the connection wrapper

  lemma CutTwice(wire: Bytes, n: nat)
    requires 2 + n <= |wire|
    ensures wire[2..][..n] == wire[2..2 + n] && wire[2..][n..] == wire[2 + n..]
  {
  }

  class SSConn {
    const conn: NetConn
    const cipher: Cipher
    var buf: Bytes
    var bufSize: nat

    ghost predicate Valid()
      reads this
    {
      bufSize <= |buf|
    }

    ghost function Value(): Reader
      reads this, conn
    {
      Reader(conn.inbox, buf, bufSize)
    }

    constructor (conn: NetConn, cipher: Cipher)
      ensures Valid() && this.conn == conn && this.cipher == cipher && buf == [] && bufSize == 0
    {
      this.conn, this.cipher, buf, bufSize := conn, cipher, [], 0;
    }

    /** Copy into the caller's buffer as much of `src` as fits. */
    method CopyOut(b: array<byte>, src: Bytes) returns (n: nat)
      modifies b
      ensures n == Min(b.Length, |src|)
      ensures b[..n] == src[..n] && b[n..] == old(b[n..])
    {
      n := Min(b.Length, |src|);
      forall i | 0 <= i < n {
        b[i] := src[i];
      }
    }

    /** Lines 216-227: hand over a fresh plaintext and keep what does not fit. */
    method HandOver(b: array<byte>, plaintext: Bytes) returns (n: nat)
      requires Valid() && bufSize == 0
      modifies this`buf, this`bufSize, b
      ensures n == Min(b.Length, |plaintext|) && b[..n] == plaintext[..n] && b[n..] == old(b[n..])
      ensures bufSize == |plaintext| - n && buf == if |plaintext| <= b.Length then old(buf) else plaintext
    {
      if |plaintext| <= b.Length {
        n := CopyOut(b, plaintext);
        return;
      }
      buf := plaintext;
      bufSize := |plaintext|;
      n := CopyOut(b, plaintext);
      bufSize := bufSize - n;
    }

    /** Read: the bytes returned are in `b[..n]`; `n` is 0 unless the result is `Got`. */
    method Read(b: array<byte>) returns (n: nat, res: ReadResult)
      requires Valid()
      modifies this, conn`inbox, b
      ensures Valid()
      ensures (Value(), res) == ReadStep(cipher, old(Value()), b.Length)
      ensures n <= b.Length && b[n..] == old(b[n..])
      ensures if res.Got? then b[..n] == res.data else n == 0
    {
      if bufSize > 0 {
        var left := buf[|buf| - bufSize..];
        n := CopyOut(b, left);
        bufSize := bufSize - n;
        if bufSize == 0 {
          buf := [];
        }
        return n, Got(b[..n]);
      }
      var header, ok := conn.ReadFull(2);
      if !ok {
        return 0, EndOfStream;
      }
      var packetLen := header[0] as int * 256 + header[1] as int;
      if packetLen < NONCE_SIZE {
        return 0, BadPacket;
      }
      var packet;
      packet, ok := conn.ReadFull(packetLen);
      if !ok {
        return 0, EndOfStream;
      }
      CutTwice(old(conn.inbox), packetLen);
      match cipher.open(packet) {
        case None =>
          return 0, BadPacket;
        case Some(plaintext) =>
          n := HandOver(b, plaintext);
          assert n == |plaintext| ==> plaintext[..n] == plaintext;
          return n, Got(plaintext[..n]);
      }
    }

    /** Write: one frame, or nothing and an error when the packet is too large. */
    method Write(b: Bytes, nonce: Bytes) returns (n: nat, ok: bool)
      modifies conn`outbox
      ensures ok <==> Accepted(cipher, nonce, b)
      ensures conn.outbox == if ok then old(conn.outbox) + Frame(cipher, nonce, b) else old(conn.outbox)
      ensures var sealed := cipher.seal(nonce, b);
        && (ok <==> |sealed| <= 65536)
        && (ok ==> conn.outbox == old(conn.outbox) + [|sealed| / 256 % 256, |sealed| % 256] + sealed)
      ensures n == if ok then |b| else 0
    {
      var ciphertext := cipher.seal(nonce, b);
      if |ciphertext| > MAX_PACKET {
        return 0, false;
      }
      var packetLen := |ciphertext|;
      conn.Write([packetLen / 256 % 256, packetLen % 256] + ciphertext);
      return |b|, true;
    }
  }
}
