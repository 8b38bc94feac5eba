/** What a reader reports for any bytes on the wire, and that only packets the cipher opened reach its
    caller (connections/prosss/ss_client.go:82-136, connections/prosss/ss_server.go:174-228). */
module TamperedWire {
  import opened Wrappers
  import opened NetStream
  import opened SecureFraming
  import opened FramingTheorems

  /** The packet length announced by the first two bytes, high byte first. */
  function Announced(w: Bytes): nat
    requires |w| >= 2
  {
    w[0] as nat * 256 + w[1] as nat
  }

  /** A read of a new packet: exactly when the stream ends early, exactly when the packet is refused, and
      otherwise as much of what the packet opened to as fits, with the rest left over. */
  lemma ReadReports(c: Cipher, r: Reader, k: nat)
    requires r.Valid() && r.bufSize == 0
    ensures var (r', res) := ReadStep(c, r, k);
      var w := r.wire;
      if |w| < 2 || (Announced(w) >= 12 && |w| < 2 + Announced(w)) then
        res == EndOfStream && r'.wire == [] && r'.bufSize == 0
      else if Announced(w) < 12 then
        res == BadPacket && r'.wire == w[2..] && r'.bufSize == 0
      else
        var n := 2 + Announced(w);
        && r'.wire == w[n..]
        && match c.open(w[2..n])
           case None => res == BadPacket && r'.bufSize == 0
           case Some(p) => res == Got(p[..Min(k, |p|)]) && r'.Leftover() == p[Min(k, |p|)..]
  {
    if |r.wire| >= 2 && Announced(r.wire) >= 12 && |r.wire| >= 2 + Announced(r.wire) {
      match c.open(r.wire[2..2 + Announced(r.wire)])
      case None =>
      case Some(p) => assert p[..|p|] == p;
    }
  }

  /** A read with something left over takes from it, whatever is on the wire. */
  lemma LeftoverReports(c: Cipher, r: Reader, k: nat)
    requires r.Valid() && r.bufSize > 0
    ensures var (r', res) := ReadStep(c, r, k);
      var n := Min(k, r.bufSize);
      r'.wire == r.wire && res == Got(r.Leftover()[..n]) && r'.Leftover() == r.Leftover()[n..]
  {
    var n := Min(k, r.bufSize);
    assert Reader(r.wire, if r.bufSize == n then [] else r.buf, r.bufSize - n).Leftover() == r.Leftover()[n..];
  }

  // ------------------------------------------------------------ any network

  /** `Arrive` puts any bytes behind those not yet read: the peer's, changed ones, or others. */
  datatype Event = Arrive(bytes: Bytes) | Pull(k: nat)

  /** `accepted` lists the packets that opened, in the order they were read, and `read` is what the caller got. */
  datatype Session = Session(reader: Reader, accepted: seq<Bytes>, read: Bytes)

  const QUIET := Session(Reader([], [], 0), [], [])

  /** The packet a read takes off the wire, if it opens. */
  function Opens(c: Cipher, r: Reader): seq<Bytes>
    requires r.Valid()
  {
    if r.bufSize > 0 || |r.wire| < 2 || Announced(r.wire) < 12 || |r.wire| < 2 + Announced(r.wire) then []
    else
      var sealed := r.wire[2..2 + Announced(r.wire)];
      if c.open(sealed).Some? then [sealed] else []
  }

  function After(c: Cipher, s: Session, e: Event): (s': Session)
    requires s.reader.Valid()
    ensures s'.reader.Valid()
  {
    match e
    case Arrive(bytes) => s.(reader := s.reader.(wire := s.reader.wire + bytes))
    case Pull(k) =>
      var (r, res) := ReadStep(c, s.reader, k);
      Session(r, s.accepted + Opens(c, s.reader), if res.Got? then s.read + res.data else s.read)
  }

  function Trace(c: Cipher, events: seq<Event>): (s: Session)
    ensures s.reader.Valid()
  {
    if events == [] then QUIET else After(c, Trace(c, events[..|events| - 1]), events[|events| - 1])
  }

  /** What packets open to, one after the other. */
  function Opened(c: Cipher, packets: seq<Bytes>): Bytes {
    if packets == [] then []
    else
      var last := packets[|packets| - 1];
      Opened(c, packets[..|packets| - 1]) + c.open(last).GetOr([])
  }

  lemma OpenedSnoc(c: Cipher, packets: seq<Bytes>, m: Bytes)
    ensures Opened(c, packets + [m]) == Opened(c, packets) + c.open(m).GetOr([])
  {
    assert (packets + [m])[..|packets|] == packets;
  }

  /** What was handed over and what is left over is what the opened packets open to, and nothing else. */
  ghost predicate Authentic(c: Cipher, s: Session) {
    && s.reader.Valid()
    && (forall m <- s.accepted :: c.open(m).Some?)
    && s.read + s.reader.Leftover() == Opened(c, s.accepted)
  }

  lemma ReceiveKeeps(c: Cipher, s: Session, k: nat)
    requires Authentic(c, s)
    ensures Authentic(c, After(c, s, Pull(k)))
  {
    hide Opened, ReadStep, Reader.Leftover;
    var r := s.reader;
    assert s.accepted + [] == s.accepted;
    if r.bufSize > 0 {
      LeftoverStep(c, r, k);
      var (r', res) := ReadStep(c, r, k);
      Assoc(s.read, res.data, r'.Leftover());
    } else {
      NoLeftover(r);
      ReadReports(c, r, k);
      var (r', res) := ReadStep(c, r, k);
      NoLeftoverOf(r');
      assert s.read + [] == s.read;
      if Opens(c, r) != [] {
        var m := Opens(c, r)[0];
        OpenedSnoc(c, s.accepted, m);
        var p := c.open(m).value;
        assert p == p[..Min(k, |p|)] + p[Min(k, |p|)..];
        Assoc(s.read, p[..Min(k, |p|)], p[Min(k, |p|)..]);
      }
    }
  }

  lemma NoLeftover(r: Reader)
    requires r.Valid() && r.bufSize == 0
    ensures r.Leftover() == []
  {
  }

  lemma NoLeftoverOf(r: Reader)
    requires r.Valid()
    ensures r.bufSize == 0 ==> r.Leftover() == []
  {
  }

  lemma ArriveKeeps(c: Cipher, s: Session, bytes: Bytes)
    requires Authentic(c, s)
    ensures Authentic(c, After(c, s, Arrive(bytes)))
  {
    hide Opened;
  }

  lemma {:induction false} TraceKeeps(c: Cipher, events: seq<Event>)
    ensures Authentic(c, Trace(c, events))
  {
    if events != [] {
      var init, last := events[..|events| - 1], events[|events| - 1];
      TraceKeeps(c, init);
      match last
      case Arrive(bytes) => ArriveKeeps(c, Trace(c, init), bytes);
      case Pull(k) => ReceiveKeeps(c, Trace(c, init), k);
    }
  }

  /** Whatever bytes arrive, for any cipher: the caller only ever gets a prefix of what opened packets open
      to, in the order they stood on the wire. A packet the cipher rejects contributes nothing. */
  lemma OnlyOpenedIsRead(c: Cipher, events: seq<Event>)
    ensures var s := Trace(c, events);
      && (forall m <- s.accepted :: c.open(m).Some?)
      && s.read <= Opened(c, s.accepted)
  {
    TraceKeeps(c, events);
  }

  function Concat(parts: seq<Bytes>): Bytes {
    if parts == [] then [] else Concat(parts[..|parts| - 1]) + parts[|parts| - 1]
  }

  lemma {:induction false} OpenedIsConcat(c: Cipher, packets: seq<Bytes>) returns (plains: seq<Bytes>)
    requires forall m <- packets :: c.open(m).Some?
    ensures Opened(c, packets) == Concat(plains)
    ensures forall p <- plains :: exists m <- packets :: c.open(m) == Some(p)
  {
    if packets == [] {
      plains := [];
    } else {
      var init, last := packets[..|packets| - 1], packets[|packets| - 1];
      plains := OpenedIsConcat(c, init);
      var more := plains + [c.open(last).value];
      assert more[..|plains|] == plains;
      forall p | p in more ensures exists m <- packets :: c.open(m) == Some(p) {
        if p in plains {
          var m :| m in init && c.open(m) == Some(p);
          assert m in packets;
        } else {
          assert last in packets;
        }
      }
      plains := more;
    }
  }

  /** So with a cipher that opens nothing but what was sealed from `written`, everything read is made of whole
      plaintexts of `written`, the last one perhaps cut short. */
  lemma OnlySealedIsRead(c: Cipher, events: seq<Event>, written: set<Bytes>) returns (plains: seq<Bytes>)
    requires forall x | c.open(x).Some? :: c.open(x).value in written
    ensures (forall p <- plains :: p in written) && Trace(c, events).read <= Concat(plains)
  {
    OnlyOpenedIsRead(c, events);
    plains := OpenedIsConcat(c, Trace(c, events).accepted);
  }
}
