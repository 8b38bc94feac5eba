/** What an accepted write of 65508 bytes does to a connection: everything before it arrives, and the read
    that reaches it fails (connections/prosss/ss_client.go:82-165). */
module OversizedWrite {
  import opened Wrappers
  import opened NetStream
  import opened SecureFraming
  import opened FramingTheorems

  predicate Small(q: Packet) { |q.nonce| == NONCE_SIZE && |q.plain| <= MAX_PLAIN }

  /** The frames of `pre` and then `big` are still to be unpacked, with anything behind them; what was read
      and will be read before `big` is `sent`. */
  ghost predicate Before(c: Cipher, p: Pipe, pre: seq<Packet>, big: Bytes, tail: Bytes, sent: Bytes) {
    && p.reader.Valid() && |big| >= 2 && big[0] == 0 && big[1] == 0
    && (forall q <- pre :: Small(q))
    && p.reader.wire + p.transit == Frames(c, pre) + (big + tail)
    && sent == p.read + p.reader.Leftover() + Plain(pre)
  }

  /** The next read meets `big`. */
  predicate AtBig(p: Pipe, pre: seq<Packet>) {
    pre == [] && p.reader.bufSize == 0
  }

  /** The read that meets it fails. */
  lemma BigIsBad(c: Cipher, p: Pipe, big: Bytes, tail: Bytes, sent: Bytes, k: nat)
    requires Before(c, p, [], big, tail, sent) && p.reader.bufSize == 0 && CanRead(p.reader)
    ensures ReadStep(c, p.reader, k).1 == BadPacket && p.read == sent
  {
    var all := p.reader.wire + p.transit;
    assert all == [] + (big + tail);
    assert all[0] == p.reader.wire[0] && all[1] == p.reader.wire[1];
    assert PacketLen(p.reader.wire) == 0;
    assert p.reader.Leftover() == [] && p.read + [] + [] == p.read;
  }

  lemma BigHasArrived(c: Cipher, p: Pipe, big: Bytes, tail: Bytes, sent: Bytes)
    requires Before(c, p, [], big, tail, sent) && p.transit == []
    ensures CanRead(p.reader)
  {
    assert p.reader.wire == p.reader.wire + p.transit == [] + (big + tail);
    assert p.reader.wire[0] == big[0] && p.reader.wire[1] == big[1];
  }

  /** Whatever follows the packets of `pre`, the first of them is cut off whole and opens. */
  lemma FrontOf(c: Cipher, r: Reader, transit: Bytes, pre: seq<Packet>, rest: Bytes)
    requires Sound(c) && pre != [] && Small(pre[0]) && r.wire + transit == Frames(c, pre) + rest
    requires r.bufSize == 0
    ensures |r.wire| >= 2 ==> PacketLen(r.wire) == |pre[0].plain| + OVERHEAD
    ensures transit == [] ==> CanRead(r)
    ensures CanRead(r) ==>
      var n := 2 + PacketLen(r.wire);
      c.open(r.wire[2..n]) == Some(pre[0].plain) && r.wire[n..] + transit == Frames(c, pre[1..]) + rest
  {
    hide Frames, Prefix, PacketLen;
    var w, q := r.wire, pre[0];
    var sealed, after := c.seal(q.nonce, q.plain), Frames(c, pre[1..]);
    var prefix := Prefix(|sealed|);
    FirstFrame(c, pre);
    Rejoin(prefix, sealed, after, rest);
    if |w| >= 2 {
      FrontBytes(w, transit, prefix, sealed + after + rest);
      PrefixReads(|sealed|, w);
    }
    if transit == [] {
      assert w == w + transit;
    }
    if CanRead(r) {
      CutFront(w, transit, prefix, sealed, after + rest);
    }
  }

  lemma FirstFrame(c: Cipher, pre: seq<Packet>)
    requires Sound(c) && pre != [] && Small(pre[0])
    ensures var sealed := c.seal(pre[0].nonce, pre[0].plain);
      && |sealed| == |pre[0].plain| + OVERHEAD && |Prefix(|sealed|)| == 2
      && Frames(c, pre) == Prefix(|sealed|) + sealed + Frames(c, pre[1..])
  {
  }

  lemma Rejoin(prefix: Bytes, sealed: Bytes, after: Bytes, rest: Bytes)
    ensures (prefix + sealed + after) + rest == prefix + (sealed + after + rest) == prefix + sealed + (after + rest)
  {
  }

  /** How much the reader still has to hand over before it meets `big`. */
  function Ahead(p: Pipe, pre: seq<Packet>): nat {
    p.reader.bufSize + QueueWork(pre)
  }

  /** A read of the next packet before `big`. */
  lemma PacketStep(c: Cipher, p: Pipe, pre: seq<Packet>, big: Bytes, tail: Bytes, sent: Bytes, k: nat)
    requires Sound(c) && Before(c, p, pre, big, tail, sent) && p.reader.bufSize == 0 && CanRead(p.reader) && pre != []
    ensures ReadStep(c, p.reader, k).1.Got?
    ensures var p' := Next(c, p, Receive(k));
      Before(c, p', pre[1..], big, tail, sent) && p'.transit == p.transit && Ahead(p', pre[1..]) < Ahead(p, pre)
  {
    hide Frames;
    FrontOf(c, p.reader, p.transit, pre, big + tail);
    Unpack(c, p.reader, k, pre[0].plain);
    var (r, res) := ReadStep(c, p.reader, k);
    assert p.reader.Leftover() == [];
    Regroup(p.read, res.data, r.Leftover(), pre[0].plain, Plain(pre[1..]));
    var p' := Next(c, p, Receive(k));
    assert p'.reader == r && p'.read == p.read + res.data && p'.transit == p.transit;
    assert |r.Leftover()| == r.bufSize && |pre[0].plain| == |res.data| + r.bufSize;
    assert QueueWork(pre) == |pre[0].plain| + 1 + QueueWork(pre[1..]);
    assert p'.reader.wire + p'.transit == Frames(c, pre[1..]) + (big + tail);
    assert Plain(pre) == pre[0].plain + Plain(pre[1..]);
  }

  lemma DeliverBefore(c: Cipher, p: Pipe, pre: seq<Packet>, big: Bytes, tail: Bytes, sent: Bytes, n: nat)
    requires Before(c, p, pre, big, tail, sent)
    ensures var p' := Next(c, p, Deliver(n));
      && Before(c, p', pre, big, tail, sent) && p'.reader.bufSize == p.reader.bufSize
      && (n >= |p.transit| ==> p'.transit == [])
  {
    hide Frames, Plain;
    var m := Min(n, |p.transit|);
    assert p.transit == p.transit[..m] + p.transit[m..];
    Assoc(p.reader.wire, p.transit[..m], p.transit[m..]);
  }

  /** One operation before the read that meets `big`. */
  lemma StepBefore(c: Cipher, p: Pipe, pre: seq<Packet>, big: Bytes, tail: Bytes, sent: Bytes, op: Op)
    returns (pre': seq<Packet>, tail': Bytes)
    requires Sound(c) && Before(c, p, pre, big, tail, sent)
    requires !(op.Receive? && AtBig(p, pre) && CanRead(p.reader))
    ensures Before(c, Next(c, p, op), pre', big, tail', sent)
    ensures op.Receive? && CanRead(p.reader) ==> ReadStep(c, p.reader, op.k).1.Got?
    ensures op.Receive? && op.k > 0 && p.transit == [] ==>
      Next(c, p, op).transit == [] && Ahead(Next(c, p, op), pre') < Ahead(p, pre)
  {
    hide Frames, Plain, Reader.Leftover;
    pre', tail' := pre, tail;
    match op
    case Send(nonce, plain) =>
      if Accepted(c, nonce, plain) {
        var f := Frame(c, nonce, plain);
        tail' := tail + f;
        Assoc(p.reader.wire, p.transit, f);
        Assoc(Frames(c, pre), big + tail, f);
        Assoc(big, tail, f);
      }
    case Deliver(n) =>
      DeliverBefore(c, p, pre, big, tail, sent, n);
    case Receive(k) =>
      if p.reader.bufSize > 0 {
        LeftoverRead(c, p, k);
      } else if pre != [] {
        FrontOf(c, p.reader, p.transit, pre, big + tail);
        if CanRead(p.reader) {
          PacketStep(c, p, pre, big, tail, sent, k);
          pre' := pre[1..];
        }
      } else if p.transit == [] {
        BigHasArrived(c, p, big, tail, sent);
      }
  }

  /** Read number `m` of the run fails, everything before it was handed over, and no earlier read failed. */
  ghost predicate FailsAt(c: Cipher, p: Pipe, ops: seq<Op>, m: nat, sent: Bytes)
    requires p.reader.Valid() && m < |ops|
  {
    var p' := Run(c, p, ops[..m]);
    && ops[m].Receive? && CanRead(p'.reader)
    && ReadStep(c, p'.reader, ops[m].k).1 == BadPacket && p'.read == sent
  }

  /** Up to operation `m` nothing but a prefix of `sent` is handed over, and every read that returns succeeds. */
  ghost predicate FineUntil(c: Cipher, p: Pipe, ops: seq<Op>, m: nat, sent: Bytes)
    requires p.reader.Valid() && m <= |ops|
  {
    && (forall i | 0 <= i <= m :: Run(c, p, ops[..i]).read <= sent)
    && (forall i | 0 <= i < m && ops[i].Receive? && CanRead(Run(c, p, ops[..i]).reader) ::
          ReadStep(c, Run(c, p, ops[..i]).reader, ops[i].k).1.Got?)
  }

  lemma RunRest(c: Cipher, p: Pipe, ops: seq<Op>, i: nat)
    requires p.reader.Valid() && 0 < i <= |ops|
    ensures Run(c, p, ops[..i]) == Run(c, Next(c, p, ops[0]), ops[1..][..i - 1])
  {
    assert ops[..i][1..] == ops[1..][..i - 1];
  }

  lemma LaterAlike(c: Cipher, p: Pipe, ops: seq<Op>, m: nat, sent: Bytes)
    requires p.reader.Valid() && ops != [] && m < |ops| && FineUntil(c, Next(c, p, ops[0]), ops[1..], m, sent)
    requires p.read <= sent
    requires ops[0].Receive? && CanRead(p.reader) ==> ReadStep(c, p.reader, ops[0].k).1.Got?
    ensures FineUntil(c, p, ops, m + 1, sent)
    ensures m + 1 < |ops| && FailsAt(c, Next(c, p, ops[0]), ops[1..], m, sent) ==> FailsAt(c, p, ops, m + 1, sent)
  {
    hide ReadStep, CanRead, Next;
    var p1, rest := Next(c, p, ops[0]), ops[1..];
    forall i | 0 < i <= |ops| ensures Run(c, p, ops[..i]) == Run(c, p1, rest[..i - 1]) {
      RunRest(c, p, ops, i);
    }
    assert ops[..0] == [] && Run(c, p, []) == p;
    forall i | 0 <= i <= m + 1 ensures Run(c, p, ops[..i]).read <= sent {
      if i > 0 {
        assert Run(c, p1, rest[..i - 1]).read <= sent;
      }
    }
    forall i | 0 <= i < m + 1 && ops[i].Receive? && CanRead(Run(c, p, ops[..i]).reader)
      ensures ReadStep(c, Run(c, p, ops[..i]).reader, ops[i].k).1.Got? {
      if i > 0 {
        assert rest[i - 1] == ops[i];
      }
    }
  }

  /** Reads into buffers that are not empty. */
  predicate OnlyReads(ops: seq<Op>) {
    forall i | 0 <= i < |ops| :: ops[i].Receive? && ops[i].k > 0
  }

  /** From such a state the run hands over nothing but `sent` until a read meets `big`, and that read fails;
      it comes if all has been delivered and enough reads follow. */
  lemma {:induction false} RunStopsAtBig(
      c: Cipher, p: Pipe, pre: seq<Packet>, big: Bytes, tail: Bytes, sent: Bytes, ops: seq<Op>)
    returns (m: nat)
    requires Sound(c) && Before(c, p, pre, big, tail, sent)
    ensures m <= |ops| && FineUntil(c, p, ops, m, sent)
    ensures m < |ops| ==> FailsAt(c, p, ops, m, sent)
    ensures OnlyReads(ops) && p.transit == [] && |ops| > Ahead(p, pre) ==> m < |ops|
    decreases |ops|
  {
    hide Before, ReadStep, CanRead, Next, Ahead;
    PrefixOfSent(c, p, pre, big, tail, sent);
    assert ops[..0] == [] && Run(c, p, ops[..0]) == p;
    if ops == [] {
      m := 0;
    } else if ops[0].Receive? && AtBig(p, pre) && CanRead(p.reader) {
      BigIsBad(c, p, big, tail, sent, ops[0].k);
      m := 0;
    } else {
      var pre', tail' := StepBefore(c, p, pre, big, tail, sent, ops[0]);
      var later := RunStopsAtBig(c, Next(c, p, ops[0]), pre', big, tail', sent, ops[1..]);
      LaterAlike(c, p, ops, later, sent);
      m := later + 1;
    }
  }

  lemma PrefixOfSent(c: Cipher, p: Pipe, pre: seq<Packet>, big: Bytes, tail: Bytes, sent: Bytes)
    requires Before(c, p, pre, big, tail, sent)
    ensures p.reader.Valid() && p.read <= sent
  {
    Assoc(p.read, p.reader.Leftover(), Plain(pre));
  }

  /** A write of 65508 bytes is accepted and its frame waits behind everything written before. */
  lemma OversizedWaits(c: Cipher, before: seq<Op>, nonce: Bytes, plain: Bytes) returns (p: Pipe)
    requires Sound(c) && (forall i | 0 <= i < |before| :: Sendable(before[i]))
    requires |nonce| == NONCE_SIZE && |plain| == MAX_PLAIN + 1
    ensures Accepted(c, nonce, plain) && p == Next(c, Run(c, IDLE, before), Send(nonce, plain))
    ensures Before(c, p, Run(c, IDLE, before).queue, Frame(c, nonce, plain), [], Sent(before))
    ensures p.reader == Run(c, IDLE, before).reader
  {
    hide Frames, Plain, Run, Reader.Leftover;
    RunFromIdle(c, before);
    var p0 := Run(c, IDLE, before);
    var big := Frame(c, nonce, plain);
    assert |c.seal(nonce, plain)| == |plain| + OVERHEAD;
    assert big[0] == 0 && big[1] == 0;
    p := Next(c, p0, Send(nonce, plain));
    Assoc(p0.reader.wire, p0.transit, big);
    assert big + [] == big;
  }

  /** In any run, whatever was written before an accepted write of 65508 bytes and whatever happens after it:
      the reader gets a prefix of what was written before until a read goes on to that write; by then it has
      got all of that, and that read fails. */
  lemma OversizedWriteBreaks(c: Cipher, before: seq<Op>, nonce: Bytes, plain: Bytes, after: seq<Op>) returns (m: nat)
    requires Sound(c) && (forall i | 0 <= i < |before| :: Sendable(before[i]))
    requires |nonce| == NONCE_SIZE && |plain| == MAX_PLAIN + 1
    ensures Accepted(c, nonce, plain)
    ensures var p := Next(c, Run(c, IDLE, before), Send(nonce, plain));
      m <= |after| && FineUntil(c, p, after, m, Sent(before)) && (m < |after| ==> FailsAt(c, p, after, m, Sent(before)))
  {
    hide Run, Next, Before, FineUntil, FailsAt;
    var p := OversizedWaits(c, before, nonce, plain);
    m := RunStopsAtBig(c, p, Run(c, IDLE, before).queue, Frame(c, nonce, plain), [], Sent(before), after);
  }

  /** And such a read comes: once everything is delivered, any reads of positive sizes, one more than what is
      ahead takes at most, include the one that fails. */
  lemma OversizedWriteIsMet(c: Cipher, before: seq<Op>, nonce: Bytes, plain: Bytes, receives: seq<Op>) returns (m: nat)
    requires Sound(c) && (forall i | 0 <= i < |before| :: Sendable(before[i]))
    requires |nonce| == NONCE_SIZE && |plain| == MAX_PLAIN + 1
    requires OnlyReads(receives) && |receives| > Work(Run(c, IDLE, before))
    ensures var p := Next(c, Run(c, IDLE, before), Send(nonce, plain));
      m < |receives| && FailsAt(c, Next(c, p, Deliver(|p.transit|)), receives, m, Sent(before))
  {
    hide Run, Before, FineUntil, FailsAt, QueueWork;
    var p := OversizedWaits(c, before, nonce, plain);
    var pre, big := Run(c, IDLE, before).queue, Frame(c, nonce, plain);
    var op := Deliver(|p.transit|);
    DeliverBefore(c, p, pre, big, [], Sent(before), |p.transit|);
    m := RunStopsAtBig(c, Next(c, p, op), pre, big, [], Sent(before), receives);
  }
}
