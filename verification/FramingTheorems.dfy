/** A writer and a reader on one connection: whatever the sizes of the writes, of the network's pieces
    and of the reads, the reader gets the writer's bytes. */
module FramingTheorems {
  import opened Wrappers
  import opened NetStream
  import opened SecureFraming

  /** A sealed packet in flight: the nonce it was sealed with and its plaintext. */
  datatype Packet = Packet(nonce: Bytes, plain: Bytes)

  /** One direction of a connection. `queue` lists the accepted writes the reader has not unpacked;
      `transit` is what the network has not delivered. */
  datatype Pipe = Pipe(reader: Reader, transit: Bytes, queue: seq<Packet>, written: Bytes, read: Bytes)

  datatype Op = Send(nonce: Bytes, plain: Bytes) | Deliver(n: nat) | Receive(k: nat)

  const IDLE := Pipe(Reader([], [], 0), [], [], [], [])

  /** A Read call can return: bytes are left over, or a whole packet has arrived. Otherwise it blocks. */
  predicate CanRead(r: Reader) {
    r.bufSize > 0 || (|r.wire| >= 2 && |r.wire| >= 2 + PacketLen(r.wire))
  }

  function Next(c: Cipher, p: Pipe, op: Op): (p': Pipe)
    requires p.reader.Valid()
    ensures p'.reader.Valid()
  {
    match op
    case Send(nonce, plain) =>
      if Accepted(c, nonce, plain) then
        p.(transit := p.transit + Frame(c, nonce, plain), queue := p.queue + [Packet(nonce, plain)],
           written := p.written + plain)
      else p
    case Deliver(n) =>
      var m := Min(n, |p.transit|);
      p.(reader := p.reader.(wire := p.reader.wire + p.transit[..m]), transit := p.transit[m..])
    case Receive(k) =>
      if !CanRead(p.reader) then p else
      var (r, res) := ReadStep(c, p.reader, k);
      p.(reader := r,
         queue := if p.reader.bufSize == 0 && |p.queue| > 0 then p.queue[1..] else p.queue,
         read := if res.Got? then p.read + res.data else p.read)
  }

  function Run(c: Cipher, p: Pipe, ops: seq<Op>): (p': Pipe)
    requires p.reader.Valid()
    ensures p'.reader.Valid()
    decreases |ops|
  {
    if ops == [] then p else Run(c, Next(c, p, ops[0]), ops[1..])
  }

  function Frames(c: Cipher, queue: seq<Packet>): Bytes {
    if queue == [] then [] else Frame(c, queue[0].nonce, queue[0].plain) + Frames(c, queue[1..])
  }

  function Plain(queue: seq<Packet>): Bytes {
    if queue == [] then [] else queue[0].plain + Plain(queue[1..])
  }

  predicate Sendable(op: Op) {
    op.Send? ==> |op.nonce| == NONCE_SIZE && |op.plain| <= MAX_PLAIN
  }

  ghost predicate Inv(c: Cipher, p: Pipe) {
    && p.reader.Valid()
    && (forall q <- p.queue :: |q.nonce| == NONCE_SIZE && |q.plain| <= MAX_PLAIN)
    && p.reader.wire + p.transit == Frames(c, p.queue)
    && p.written == p.read + p.reader.Leftover() + Plain(p.queue)
  }

  lemma {:induction false} QueueSnoc(c: Cipher, queue: seq<Packet>, q: Packet)
    ensures Frames(c, queue + [q]) == Frames(c, queue) + Frame(c, q.nonce, q.plain)
    ensures Plain(queue + [q]) == Plain(queue) + q.plain
  {
    if queue == [] {
      assert queue + [q] == [q];
      assert Frames(c, [q]) == Frame(c, q.nonce, q.plain) + Frames(c, []);
    } else {
      assert (queue + [q])[1..] == queue[1..] + [q];
      QueueSnoc(c, queue[1..], q);
    }
  }

  lemma SendKeeps(c: Cipher, p: Pipe, nonce: Bytes, plain: Bytes)
    requires Sound(c) && Inv(c, p) && |nonce| == NONCE_SIZE && |plain| <= MAX_PLAIN
    ensures Inv(c, Next(c, p, Send(nonce, plain)))
    ensures Next(c, p, Send(nonce, plain)).written == p.written + plain
  {
    hide Frames, Plain, Reader.Leftover;
    assert |c.seal(nonce, plain)| == |plain| + OVERHEAD;
    QueueSnoc(c, p.queue, Packet(nonce, plain));
    var p' := Next(c, p, Send(nonce, plain));
    assert p'.reader.wire + p'.transit == (p.reader.wire + p.transit) + Frame(c, nonce, plain);
    assert p'.written == p.read + p.reader.Leftover() + Plain(p'.queue);
  }

  lemma DeliverKeeps(c: Cipher, p: Pipe, n: nat)
    requires Inv(c, p)
    ensures Inv(c, Next(c, p, Deliver(n)))
  {
    var p' := Next(c, p, Deliver(n));
    assert p'.reader.wire + p'.transit == p.reader.wire + p.transit;
  }

  /** A length that fits two bytes is read back from its prefix. */
  lemma PrefixReads(n: nat, w: Bytes)
    requires n < 65536 && |w| >= 2 && w[0] == Prefix(n)[0] && w[1] == Prefix(n)[1]
    ensures PacketLen(w) == n
  {
  }

  lemma FrontBytes(w: Bytes, transit: Bytes, prefix: Bytes, rest: Bytes)
    requires w + transit == prefix + rest && |w| >= 2 == |prefix|
    ensures w[0] == prefix[0] && w[1] == prefix[1]
  {
    var all := w + transit;
    assert all[0] == w[0] && all[1] == w[1];
  }

  /** When the wire holds a whole packet, cutting it off leaves the packets behind it. */
  lemma CutFront(w: Bytes, transit: Bytes, prefix: Bytes, sealed: Bytes, rest: Bytes)
    requires w + transit == prefix + sealed + rest && |prefix| == 2 && |w| >= 2 + |sealed|
    ensures w[2..2 + |sealed|] == sealed && w[2 + |sealed|..] + transit == rest
  {
    var n, all := 2 + |sealed|, w + transit;
    assert w[2..n] == all[2..n] == (prefix + sealed + rest)[2..n] == sealed;
    assert w[n..] + transit == all[n..] == (prefix + sealed + rest)[n..] == rest;
  }

  /** A complete packet at the front of the wire is the frame of the oldest write, and it opens to its plaintext. */
  lemma FrontPacket(c: Cipher, p: Pipe)
    requires Sound(c) && Inv(c, p) && p.reader.bufSize == 0 && CanRead(p.reader)
    ensures |p.queue| > 0
    ensures var len := PacketLen(p.reader.wire);
      && NONCE_SIZE <= len && 2 + len <= |p.reader.wire|
      && c.open(p.reader.wire[2..2 + len]) == Some(p.queue[0].plain)
      && p.reader.wire[2 + len..] + p.transit == Frames(c, p.queue[1..])
  {
    hide Plain;
    var w, q := p.reader.wire, p.queue[0];
    var sealed, rest := c.seal(q.nonce, q.plain), Frames(c, p.queue[1..]);
    assert |sealed| == |q.plain| + OVERHEAD;
    assert w + p.transit == Prefix(|sealed|) + sealed + rest == Prefix(|sealed|) + (sealed + rest);
    FrontBytes(w, p.transit, Prefix(|sealed|), sealed + rest);
    PrefixReads(|sealed|, w);
    CutFront(w, p.transit, Prefix(|sealed|), sealed, rest);
  }

  lemma LeftoverStep(c: Cipher, r: Reader, k: nat)
    requires r.Valid() && r.bufSize > 0
    ensures var (r', res) := ReadStep(c, r, k);
      res.Got? && r'.wire == r.wire && res.data + r'.Leftover() == r.Leftover()
  {
    var n, left := Min(k, r.bufSize), r.Leftover();
    assert Reader(r.wire, if r.bufSize == n then [] else r.buf, r.bufSize - n).Leftover() == left[n..];
    assert left[..n] + left[n..] == left;
  }

  lemma LeftoverRead(c: Cipher, p: Pipe, k: nat)
    requires p.reader.Valid() && p.reader.bufSize > 0
    ensures var p' := Next(c, p, Receive(k));
      && p' == p.(reader := p'.reader, read := p'.read) && p'.reader.wire == p.reader.wire
      && p'.read + p'.reader.Leftover() == p.read + p.reader.Leftover()
  {
    hide ReadStep, Reader.Leftover;
    LeftoverStep(c, p.reader, k);
    var (r, res) := ReadStep(c, p.reader, k);
    Assoc(p.read, res.data, r.Leftover());
  }

  lemma LeftoverKeeps(c: Cipher, p: Pipe, k: nat)
    requires Inv(c, p) && p.reader.bufSize > 0
    ensures Inv(c, Next(c, p, Receive(k)))
  {
    hide Next, Frames, Plain, Reader.Leftover;
    LeftoverRead(c, p, k);
  }

  /** Unpacking splits a plaintext into what is returned now and what is left over. */
  lemma Unpack(c: Cipher, r: Reader, k: nat, plain: Bytes)
    requires r.Valid() && r.bufSize == 0 && CanRead(r)
    requires var len := PacketLen(r.wire); len >= NONCE_SIZE && c.open(r.wire[2..2 + len]) == Some(plain)
    ensures var (r', res) := ReadStep(c, r, k);
      && r'.Valid() && r'.wire == r.wire[2 + PacketLen(r.wire)..]
      && res.Got? && res.data + r'.Leftover() == plain
  {
    if |plain| > k {
      assert plain == plain[..k] + plain[k..];
    }
  }

  lemma Regroup(read: Bytes, got: Bytes, left: Bytes, plain: Bytes, rest: Bytes)
    requires got + left == plain
    ensures read + [] + (plain + rest) == (read + got) + left + rest
  {
    assert (read + got) + left == read + plain;
  }

  lemma PacketKeeps(c: Cipher, p: Pipe, k: nat)
    requires Sound(c) && Inv(c, p) && p.reader.bufSize == 0 && CanRead(p.reader)
    ensures Inv(c, Next(c, p, Receive(k)))
  {
    FrontPacket(c, p);
    var q, rest := p.queue[0], p.queue[1..];
    Unpack(c, p.reader, k, q.plain);
    var (r, res) := ReadStep(c, p.reader, k);
    var p' := Pipe(r, p.transit, rest, p.written, p.read + res.data);
    assert p.reader.Leftover() == [];
    Regroup(p.read, res.data, r.Leftover(), q.plain, Plain(rest));
    assert Inv(c, p');
    assert Next(c, p, Receive(k)) == p';
  }

  lemma NextKeeps(c: Cipher, p: Pipe, op: Op)
    requires Sound(c) && Inv(c, p) && Sendable(op)
    ensures Inv(c, Next(c, p, op))
    ensures Next(c, p, op).written == p.written + (if op.Send? then op.plain else [])
  {
    match op
    case Send(nonce, plain) => SendKeeps(c, p, nonce, plain);
    case Deliver(n) => DeliverKeeps(c, p, n);
    case Receive(k) =>
      if p.reader.bufSize > 0 {
        LeftoverKeeps(c, p, k);
      } else if CanRead(p.reader) {
        PacketKeeps(c, p, k);
      }
  }

  lemma {:induction false} RunKeeps(c: Cipher, p: Pipe, ops: seq<Op>)
    requires Sound(c) && Inv(c, p) && forall i | 0 <= i < |ops| :: Sendable(ops[i])
    ensures Inv(c, Run(c, p, ops))
    decreases |ops|
  {
    if ops != [] {
      NextKeeps(c, p, ops[0]);
      RunKeeps(c, Next(c, p, ops[0]), ops[1..]);
    }
  }

  /** The bytes of the writes in an operation list. */
  function Sent(ops: seq<Op>): Bytes {
    if ops == [] then [] else (if ops[0].Send? then ops[0].plain else []) + Sent(ops[1..])
  }

  lemma {:induction false} WrittenIsSent(c: Cipher, p: Pipe, ops: seq<Op>)
    requires Sound(c) && Inv(c, p) && forall i | 0 <= i < |ops| :: Sendable(ops[i])
    ensures Run(c, p, ops).written == p.written + Sent(ops)
    decreases |ops|
  {
    if ops != [] {
      NextKeeps(c, p, ops[0]);
      WrittenIsSent(c, Next(c, p, ops[0]), ops[1..]);
      Assoc(p.written, if ops[0].Send? then ops[0].plain else [], Sent(ops[1..]));
    }
  }

  lemma Assoc(a: Bytes, b: Bytes, c: Bytes)
    ensures (a + b) + c == a + (b + c)
  {
  }

  /** The reader is always a prefix behind the writer. */
  lemma ReadBehindWritten(c: Cipher, p: Pipe)
    requires Inv(c, p)
    ensures p.read <= p.written
  {
    Assoc(p.read, p.reader.Leftover(), Plain(p.queue));
  }

  lemma RunFromIdle(c: Cipher, ops: seq<Op>)
    requires Sound(c) && forall i | 0 <= i < |ops| :: Sendable(ops[i])
    ensures Inv(c, Run(c, IDLE, ops)) && Run(c, IDLE, ops).written == Sent(ops)
  {
    assert Inv(c, IDLE);
    RunKeeps(c, IDLE, ops);
    WrittenIsSent(c, IDLE, ops);
    assert [] + Sent(ops) == Sent(ops);
  }

  /** In any interleaving, what was read is a prefix of what was written. */
  lemma ReadsArePrefix(c: Cipher, ops: seq<Op>)
    requires Sound(c) && forall i | 0 <= i < |ops| :: Sendable(ops[i])
    ensures Run(c, IDLE, ops).read <= Sent(ops)
  {
    RunFromIdle(c, ops);
    ReadBehindWritten(c, Run(c, IDLE, ops));
  }

  // ------------------------------------------------------------ everything arrives

  /** An upper bound on the reads still needed once everything is delivered. */
  function Work(p: Pipe): nat
    requires p.reader.Valid()
  {
    p.reader.bufSize + QueueWork(p.queue)
  }

  function QueueWork(queue: seq<Packet>): nat {
    if queue == [] then 0 else |queue[0].plain| + 1 + QueueWork(queue[1..])
  }

  /** With nothing under way, a queued packet has arrived as a whole. */
  lemma ArrivedWhole(c: Cipher, p: Pipe)
    requires Sound(c) && Inv(c, p) && p.transit == [] && p.reader.bufSize == 0 && p.queue != []
    ensures CanRead(p.reader)
  {
    hide Plain;
    var q := p.queue[0];
    assert p.reader.wire == p.reader.wire + p.transit == Frame(c, q.nonce, q.plain) + Frames(c, p.queue[1..]);
    assert |c.seal(q.nonce, q.plain)| == |q.plain| + OVERHEAD;
    PrefixReads(|q.plain| + OVERHEAD, p.reader.wire);
  }

  lemma ReceiveProgress(c: Cipher, p: Pipe, k: nat)
    requires Sound(c) && Inv(c, p) && p.transit == [] && k > 0
    ensures var p' := Next(c, p, Receive(k));
      p'.reader.Valid() && p'.transit == [] && (Work(p) > 0 ==> Work(p') < Work(p))
  {
    hide Plain, Frames, PacketLen;
    if p.reader.bufSize == 0 && p.queue != [] {
      ArrivedWhole(c, p);
      FrontPacket(c, p);
      Unpack(c, p.reader, k, p.queue[0].plain);
    }
  }

  /** Once the network has delivered everything, enough reads of any positive sizes return every byte written. */
  lemma {:induction false} ReadsReachEverything(c: Cipher, p: Pipe, sizes: seq<nat>)
    requires Sound(c) && Inv(c, p) && p.transit == []
    requires (forall i | 0 <= i < |sizes| :: sizes[i] > 0) && |sizes| >= Work(p)
    ensures Run(c, p, seq(|sizes|, i requires 0 <= i < |sizes| => Receive(sizes[i]))).read == p.written
    decreases |sizes|
  {
    var ops := seq(|sizes|, i requires 0 <= i < |sizes| => Receive(sizes[i]));
    if sizes == [] {
      assert p.queue == [] && p.reader.Leftover() == [];
      assert p.written == p.read + [] + [];
    } else {
      ReceiveProgress(c, p, sizes[0]);
      NextKeeps(c, p, ops[0]);
      var rest := sizes[1..];
      assert ops[1..] == seq(|rest|, i requires 0 <= i < |rest| => Receive(rest[i]));
      var p1 := Next(c, p, ops[0]);
      if Work(p) == 0 {
        assert p.queue == [] && p.reader.bufSize == 0;
        assert Frames(c, []) == [] && p.reader.wire == p.reader.wire + p.transit == [];
        assert p1 == p;
      }
      ReadsReachEverything(c, p1, rest);
    }
  }

  /** After any interleaving, delivering what is still under way and reading on hands over every byte sent. */
  lemma EverythingArrives(c: Cipher, ops: seq<Op>, sizes: seq<nat>)
    requires Sound(c) && forall i | 0 <= i < |ops| :: Sendable(ops[i])
    requires (forall i | 0 <= i < |sizes| :: sizes[i] > 0)
    requires |sizes| >= Work(Run(c, IDLE, ops))
    ensures var p := Run(c, IDLE, ops);
      var delivered := Next(c, p, Deliver(|p.transit|));
      Run(c, delivered, seq(|sizes|, i requires 0 <= i < |sizes| => Receive(sizes[i]))).read == Sent(ops)
  {
    var p := Run(c, IDLE, ops);
    RunFromIdle(c, ops);
    DeliverKeeps(c, p, |p.transit|);
    ReadsReachEverything(c, Next(c, p, Deliver(|p.transit|)), sizes);
  }

  // ------------------------------------------------------------ the size bound

  /** A single write into an empty connection, read back with a large enough buffer. */
  predicate RoundTrips(c: Cipher, nonce: Bytes, plain: Bytes, k: nat)
  {
    Accepted(c, nonce, plain) && ReadStep(c, Reader(Frame(c, nonce, plain), [], 0), k).1 == Got(plain)
  }

  lemma RoundTripSmall(c: Cipher, nonce: Bytes, plain: Bytes, k: nat)
    requires Sound(c) && |nonce| == NONCE_SIZE && |plain| <= k && |plain| <= MAX_PLAIN
    ensures RoundTrips(c, nonce, plain, k)
  {
    var sealed := c.seal(nonce, plain);
    var f, n := Frame(c, nonce, plain), |plain| + OVERHEAD;
    assert |sealed| == n && n / 256 < 256;
    assert f == Prefix(n) + sealed && |f| == 2 + n;
    assert f[0] == n / 256 && f[1] == n % 256;
    assert PacketLen(f) == n && f[2..2 + n] == sealed;
  }

  /** Exactly the plaintexts of at most 65507 bytes survive: one byte more is accepted by the size
      check but announces a packet of length 0, which the peer rejects; longer ones are refused. */
  lemma RoundTripIffSmall(c: Cipher, nonce: Bytes, plain: Bytes, k: nat)
    requires Sound(c) && |nonce| == NONCE_SIZE && |plain| <= k
    ensures RoundTrips(c, nonce, plain, k) <==> |plain| <= MAX_PLAIN
    ensures |plain| == MAX_PLAIN + 1 ==>
      Accepted(c, nonce, plain) && ReadStep(c, Reader(Frame(c, nonce, plain), [], 0), k).1 == BadPacket
    ensures |plain| > MAX_PLAIN + 1 ==> !Accepted(c, nonce, plain)
  {
    if |plain| <= MAX_PLAIN {
      RoundTripSmall(c, nonce, plain, k);
    } else {
      var f := Frame(c, nonce, plain);
      assert |c.seal(nonce, plain)| == |plain| + OVERHEAD;
      if |plain| == MAX_PLAIN + 1 {
        assert f[0] == 0 && f[1] == 0;
        assert PacketLen(f) == 0;
      }
    }
  }
}
