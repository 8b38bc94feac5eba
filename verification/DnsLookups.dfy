/** Any number of concurrent `Lookup` calls on one cache, interleaved at every lock, resolver
    return, channel close and wake-up (connections/base/dnscache.go:82-116). */
module DnsLookups {
  import opened DnsCache
  import opened DnsRecency

  /** The life of an in-flight record: the resolver runs, has returned, the record is retired
      under the lock, its channel is closed. */
  datatype Phase =
    | Running
    | Returned(ans: Answer, returnedAt: int)
    | Retired(ans: Answer, returnedAt: int, retiredAt: int)
    | Closed(ans: Answer, returnedAt: int, retiredAt: int)
  {
    predicate Open() { Running? || Returned? }
  }

  datatype Flight = Flight(host: Host, owner: nat, phase: Phase)

  /** Where an answer came from: the entry with a stamp, or a flight. */
  datatype Source = FromEntry(stamp: nat, hitAt: int) | FromFlight(flight: nat)

  datatype Pc = Called | Owning(flight: nat) | Waiting(flight: nat) | Done(ans: Answer, source: Source)

  datatype Thread = Thread(host: Host, calledAt: int, pc: Pc)

  /** `stored` lists the flights that wrote an entry, in stamp order. */
  datatype Sys = Sys(cache: Cache, flights: seq<Flight>, threads: seq<Thread>, stored: seq<nat>, clock: int)

  datatype Step =
    | Tick(delta: nat)
    | Call(host: Host)
    | Enter(thread: nat)
    | Return(flight: nat, ans: Answer)
    | Retire(flight: nat)
    | Close(flight: nat)
    | Wake(thread: nat)

  function Start(ttl: int, max: nat): Sys {
    Sys(Cache(map[], map[], 0, 0, 0, ttl, max), [], [], [], 0)
  }

  predicate Enabled(s: Sys, a: Step) {
    match a
    case Tick(_) => true
    case Call(_) => true
    case Enter(t) => t < |s.threads| && s.threads[t].pc == Called
    case Return(f, _) => f < |s.flights| && s.flights[f].phase.Running?
    case Retire(f) => f < |s.flights| && s.flights[f].phase.Returned?
    case Close(f) => f < |s.flights| && s.flights[f].phase.Retired? && s.flights[f].owner < |s.threads|
    case Wake(t) =>
      t < |s.threads| && s.threads[t].pc.Waiting? &&
      s.threads[t].pc.flight < |s.flights| && s.flights[s.threads[t].pc.flight].phase.Closed?
  }

  function SetPc(s: Sys, t: nat, pc: Pc): Sys
    requires t < |s.threads|
  {
    s.(threads := s.threads[t := s.threads[t].(pc := pc)])
  }

  function SetPhase(s: Sys, f: nat, p: Phase): Sys
    requires f < |s.flights|
  {
    s.(flights := s.flights[f := s.flights[f].(phase := p)])
  }

  function EnterStep(s: Sys, t: nat): Sys
    requires Enabled(s, Enter(t))
  {
    var th := s.threads[t];
    var (c, o) := EnterLookup(s.cache, th.host, s.clock, |s.flights|);
    match o
    case Hit(e) => SetPc(s.(cache := c), t, Done(Answer(e.ips, false), FromEntry(e.stamp, s.clock)))
    case Join(f) => SetPc(s.(cache := c), t, Waiting(f))
    case Own(f) => SetPc(s.(cache := c, flights := s.flights + [Flight(th.host, t, Running)]), t, Owning(f))
  }

  function RetireStep(s: Sys, f: nat): Sys
    requires Enabled(s, Retire(f))
  {
    var fl := s.flights[f];
    var s1 := SetPhase(s, f, Retired(fl.phase.ans, fl.phase.returnedAt, s.clock));
    s1.(cache := FinishLookup(s.cache, fl.host, fl.phase.ans, s.clock),
        stored := if fl.phase.ans.Cacheable() then s.stored + [f] else s.stored)
  }

  function CloseStep(s: Sys, f: nat): Sys
    requires Enabled(s, Close(f))
  {
    var p := s.flights[f].phase;
    SetPc(SetPhase(s, f, Closed(p.ans, p.returnedAt, p.retiredAt)), s.flights[f].owner, Done(p.ans, FromFlight(f)))
  }

  /** One atomic step of one goroutine; a step that is not enabled changes nothing. */
  function Next(s: Sys, a: Step): Sys {
    if !Enabled(s, a) then s else
    match a
    case Tick(d) => s.(clock := s.clock + d)
    case Call(h) => s.(threads := s.threads + [Thread(h, s.clock, Called)])
    case Enter(t) => EnterStep(s, t)
    case Return(f, ans) => SetPhase(s, f, Returned(ans, s.clock))
    case Retire(f) => RetireStep(s, f)
    case Close(f) => CloseStep(s, f)
    case Wake(t) =>
      var f := s.threads[t].pc.flight;
      SetPc(s, t, Done(s.flights[f].phase.ans, FromFlight(f)))
  }

  function Run(s: Sys, steps: seq<Step>): Sys
    decreases |steps|
  {
    if steps == [] then s else Run(Next(s, steps[0]), steps[1..])
  }

  // ---------------------------------------------------------------- the invariant

  /** An open flight is the one its host maps to, its owner is still at work on it, and time only moves forward. */
  ghost predicate FlightOk(s: Sys, f: nat)
    requires f < |s.flights|
  {
    var fl := s.flights[f];
    && fl.owner < |s.threads| && s.threads[fl.owner].host == fl.host
    && (!fl.phase.Closed? ==> s.threads[fl.owner].pc == Owning(f))
    && (fl.phase.Open() ==> fl.host in s.cache.inflight && s.cache.inflight[fl.host] == f)
    && (!fl.phase.Running? ==> s.threads[fl.owner].calledAt <= fl.phase.returnedAt <= s.clock)
    && (!fl.phase.Open() ==> fl.phase.returnedAt <= fl.phase.retiredAt <= s.clock)
  }

  ghost predicate InflightOk(s: Sys) {
    forall h <- s.cache.inflight ::
      var f := s.cache.inflight[h];
      f < |s.flights| && s.flights[f].host == h && s.flights[f].phase.Open()
  }

  /** Stamp `i + 1` was given to an answer that may be cached. */
  ghost predicate StoredOk(s: Sys) {
    && |s.stored| == s.cache.nextSeq
    && forall i | 0 <= i < |s.stored| ::
         var f := s.stored[i];
         && f < |s.flights| && !s.flights[f].phase.Open()
         && s.flights[f].phase.ans.Cacheable()
  }

  function History(s: Sys): seq<Host>
    requires forall i | 0 <= i < |s.stored| :: s.stored[i] < |s.flights|
  {
    seq(|s.stored|, i requires 0 <= i < |s.stored| => s.flights[s.stored[i]].host)
  }

  ghost predicate EntryOk(s: Sys, h: Host)
    requires h in s.cache.entries
  {
    var e := s.cache.entries[h];
    && 1 <= e.stamp <= |s.stored|
    && s.stored[e.stamp - 1] < |s.flights|
    && var fl := s.flights[s.stored[e.stamp - 1]];
    && fl.host == h && !fl.phase.Open()
    && e.ips == fl.phase.ans.ips && e.exp == fl.phase.retiredAt + s.cache.ttl
  }

  /** What a finished lookup returned is what a resolver returned for its host, and it is fresh. */
  ghost predicate Justified(s: Sys, t: nat)
    requires t < |s.threads| && s.threads[t].pc.Done?
  {
    var th := s.threads[t];
    match th.pc.source
    case FromEntry(stamp, hitAt) =>
      && 1 <= stamp <= |s.stored| && s.stored[stamp - 1] < |s.flights|
      && var fl := s.flights[s.stored[stamp - 1]];
      && fl.host == th.host && !fl.phase.Open() && fl.phase.ans.Cacheable()
      && th.pc.ans == fl.phase.ans
      && th.calledAt <= hitAt <= s.clock
      && fl.phase.retiredAt <= hitAt < fl.phase.retiredAt + s.cache.ttl
    case FromFlight(f) =>
      && f < |s.flights|
      && var fl := s.flights[f];
      && fl.host == th.host && fl.phase.Closed?
      && th.pc.ans == fl.phase.ans
      && th.calledAt <= fl.phase.retiredAt
      && (fl.owner == t ==> th.calledAt <= fl.phase.returnedAt)
  }

  ghost predicate ThreadOk(s: Sys, t: nat)
    requires t < |s.threads|
  {
    var th := s.threads[t];
    && th.calledAt <= s.clock
    && match th.pc
       case Called => true
       case Owning(f) => f < |s.flights| && s.flights[f].owner == t && !s.flights[f].phase.Closed?
       case Waiting(f) =>
         && f < |s.flights| && s.flights[f].host == th.host && s.flights[f].owner != t
         && (!s.flights[f].phase.Open() ==> th.calledAt <= s.flights[f].phase.retiredAt)
       case Done(_, _) => Justified(s, t)
  }

  /** How a lookup left the first critical section: answered from an entry, or owning or sharing a resolution. */
  predicate Answered(pc: Pc, hit: bool) {
    if hit then pc.Done? && pc.source.FromEntry?
    else pc.Owning? || pc.Waiting? || (pc.Done? && pc.source.FromFlight?)
  }

  function One(b: bool): nat { if b then 1 else 0 }

  function Tally(ts: seq<Thread>, hit: bool): nat {
    if ts == [] then 0 else Tally(ts[..|ts| - 1], hit) + One(Answered(ts[|ts| - 1].pc, hit))
  }

  ghost predicate Inv(s: Sys) {
    && (forall f: nat | f < |s.flights| :: FlightOk(s, f))
    && InflightOk(s)
    && StoredOk(s)
    && (forall h <- s.cache.entries :: EntryOk(s, h))
    && Tracks(s.cache.entries, History(s), s.cache.max)
    && (forall t: nat | t < |s.threads| :: ThreadOk(s, t))
    && s.cache.hits == Tally(s.threads, true) && s.cache.misses == Tally(s.threads, false)
  }

  lemma {:induction false} TallyUpdate(ts: seq<Thread>, t: nat, th: Thread, hit: bool)
    requires t < |ts|
    ensures Tally(ts[t := th], hit) == Tally(ts, hit) - One(Answered(ts[t].pc, hit)) + One(Answered(th.pc, hit))
  {
    var n := |ts| - 1;
    if t == n {
      assert ts[t := th][..n] == ts[..n];
    } else {
      assert ts[t := th][..n] == ts[..n][t := th];
      TallyUpdate(ts[..n], t, th, hit);
    }
  }

  /** What a step may do to flights and history without touching the entries: hosts stay, and a
      retired flight keeps its answer and its time. */
  ghost predicate Extends(s: Sys, s': Sys) {
    && s'.cache.entries == s.cache.entries && s'.cache.nextSeq == s.cache.nextSeq
    && s'.cache.ttl == s.cache.ttl && s'.cache.max == s.cache.max
    && s'.stored == s.stored && |s.flights| <= |s'.flights|
    && forall f | 0 <= f < |s.flights| ::
         var p, p' := s.flights[f].phase, s'.flights[f].phase;
         && s'.flights[f].host == s.flights[f].host
         && (!p.Open() ==> !p'.Open() && p'.ans == p.ans && p'.retiredAt == p.retiredAt)
  }

  lemma EntriesCarryOver(s: Sys, s': Sys)
    requires StoredOk(s) && Tracks(s.cache.entries, History(s), s.cache.max) && Extends(s, s')
    requires forall h <- s.cache.entries :: EntryOk(s, h)
    ensures StoredOk(s') && Tracks(s'.cache.entries, History(s'), s'.cache.max)
    ensures forall h <- s'.cache.entries :: EntryOk(s', h)
  {
    assert StoredOk(s');
    assert History(s') == History(s);
    forall h | h in s'.cache.entries ensures EntryOk(s', h) { assert EntryOk(s, h); }
  }

  lemma TickKeeps(s: Sys, d: nat)
    requires Inv(s)
    ensures Inv(Next(s, Tick(d)))
  {
    var s' := Next(s, Tick(d));
    EntriesCarryOver(s, s');
    forall t: nat | t < |s'.threads| ensures ThreadOk(s', t) { assert ThreadOk(s, t); }
    forall f: nat | f < |s'.flights| ensures FlightOk(s', f) { assert FlightOk(s, f); }
  }

  lemma CallKeeps(s: Sys, h: Host)
    requires Inv(s)
    ensures Inv(Next(s, Call(h)))
  {
    var s' := Next(s, Call(h));
    assert s'.threads[..|s.threads|] == s.threads;
    EntriesCarryOver(s, s');
    forall t: nat | t < |s'.threads| ensures ThreadOk(s', t) {
      if t < |s.threads| { assert ThreadOk(s, t); }
    }
    forall f: nat | f < |s'.flights| ensures FlightOk(s', f) { assert FlightOk(s, f); }
  }

  /** Changing only the state of thread `t`, which owns no flight, keeps everything said about the others. */
  lemma ThreadMoveKeeps(s: Sys, c: Cache, t: nat, pc: Pc)
    requires Inv(s) && t < |s.threads| && !s.threads[t].pc.Owning?
    requires c.entries == s.cache.entries && c.inflight == s.cache.inflight && c.nextSeq == s.cache.nextSeq
    requires c.ttl == s.cache.ttl && c.max == s.cache.max
    requires c.hits == s.cache.hits - One(Answered(s.threads[t].pc, true)) + One(Answered(pc, true))
    requires c.misses == s.cache.misses - One(Answered(s.threads[t].pc, false)) + One(Answered(pc, false))
    requires !pc.Called? && ThreadOk(SetPc(s.(cache := c), t, pc), t)
    ensures Inv(SetPc(s.(cache := c), t, pc))
  {
    var s' := SetPc(s.(cache := c), t, pc);
    TallyUpdate(s.threads, t, s'.threads[t], true);
    TallyUpdate(s.threads, t, s'.threads[t], false);
    EntriesCarryOver(s, s');
    forall u: nat | u < |s'.threads| ensures ThreadOk(s', u) {
      if u != t { assert ThreadOk(s, u); }
    }
    forall f: nat | f < |s'.flights| ensures FlightOk(s', f) { assert FlightOk(s, f); }
  }

  lemma EnterKeeps(s: Sys, t: nat)
    requires Inv(s) && Enabled(s, Enter(t))
    ensures Inv(Next(s, Enter(t)))
  {
    hide Tracks, History, Tally;
    var th := s.threads[t];
    var (c, o) := EnterLookup(s.cache, th.host, s.clock, |s.flights|);
    assert ThreadOk(s, t);
    match o
    case Hit(e) =>
      assert EntryOk(s, th.host);
      assert FlightOk(s, s.stored[e.stamp - 1]);
      ThreadMoveKeeps(s, c, t, Done(Answer(e.ips, false), FromEntry(e.stamp, s.clock)));
    case Join(f) =>
      assert FlightOk(s, f);
      ThreadMoveKeeps(s, c, t, Waiting(f));
    case Own(f) =>
      OwnKeeps(s, t);
  }

  lemma OwnKeeps(s: Sys, t: nat)
    requires Inv(s) && Enabled(s, Enter(t))
    requires EnterLookup(s.cache, s.threads[t].host, s.clock, |s.flights|).1.Own?
    ensures Inv(Next(s, Enter(t)))
  {
    hide Tracks, History, Tally;
    var s' := Next(s, Enter(t));
    var n := |s.flights|;
    TallyUpdate(s.threads, t, s'.threads[t], true);
    TallyUpdate(s.threads, t, s'.threads[t], false);
    EntriesCarryOver(s, s');
    forall u: nat | u < |s'.threads| ensures ThreadOk(s', u) { assert ThreadOk(s, u); }
    forall f: nat | f < |s'.flights| ensures FlightOk(s', f) {
      if f < n { assert FlightOk(s, f); }
    }
  }

  lemma ReturnKeeps(s: Sys, f: nat, ans: Answer)
    requires Inv(s) && Enabled(s, Return(f, ans))
    ensures Inv(Next(s, Return(f, ans)))
  {
    hide Tracks, History, Tally;
    var s' := Next(s, Return(f, ans));
    EntriesCarryOver(s, s');
    assert FlightOk(s, f) && ThreadOk(s, s.flights[f].owner);
    forall u: nat | u < |s'.threads| ensures ThreadOk(s', u) { assert ThreadOk(s, u); }
    forall g: nat | g < |s'.flights| ensures FlightOk(s', g) { assert FlightOk(s, g); }
  }

  lemma RetireKeepsFlights(s: Sys, f: nat)
    requires Inv(s) && Enabled(s, Retire(f))
    ensures var s' := Next(s, Retire(f));
      InflightOk(s') && StoredOk(s') && forall g: nat | g < |s'.flights| :: FlightOk(s', g)
  {
    var s' := Next(s, Retire(f));
    var h := s.flights[f].host;
    assert FlightOk(s, f);
    assert s'.cache.inflight == s.cache.inflight - {h};
    forall g: nat | g < |s'.flights| ensures FlightOk(s', g) { assert FlightOk(s, g); }
    forall k | k in s'.cache.inflight
      ensures var g := s'.cache.inflight[k]; g < |s'.flights| && s'.flights[g].host == k && s'.flights[g].phase.Open() {
      assert s.cache.inflight[k] != f;
    }
  }

  lemma RetireKeepsThreads(s: Sys, f: nat)
    requires Inv(s) && Enabled(s, Retire(f))
    ensures var s' := Next(s, Retire(f)); forall u: nat | u < |s'.threads| :: ThreadOk(s', u)
  {
    var s' := Next(s, Retire(f));
    assert s'.threads == s.threads && |s'.flights| == |s.flights| && s.stored <= s'.stored;
    forall u: nat | u < |s'.threads| ensures ThreadOk(s', u) { assert ThreadOk(s, u); }
  }

  function Stamped(s: Sys, f: nat): Entry
    requires Enabled(s, Retire(f))
  {
    Entry(s.flights[f].phase.ans.ips, s.clock + s.cache.ttl, s.cache.nextSeq + 1)
  }

  lemma RetireHistory(s: Sys, f: nat)
    requires StoredOk(s) && Enabled(s, Retire(f))
    ensures StoredOk(RetireStep(s, f))
    ensures History(RetireStep(s, f)) ==
            if s.flights[f].phase.ans.Cacheable() then History(s) + [s.flights[f].host] else History(s)
  {
  }

  lemma RetireEntries(s: Sys, f: nat)
    requires Enabled(s, Retire(f))
    ensures RetireStep(s, f).cache.entries ==
            if s.flights[f].phase.ans.Cacheable()
            then Newest(s.cache.entries[s.flights[f].host := Stamped(s, f)], s.cache.max)
            else s.cache.entries
  {
  }

  lemma RetireKeepsTracks(s: Sys, f: nat)
    requires StoredOk(s) && Tracks(s.cache.entries, History(s), s.cache.max) && Enabled(s, Retire(f))
    ensures StoredOk(RetireStep(s, f))
    ensures Tracks(RetireStep(s, f).cache.entries, History(RetireStep(s, f)), s.cache.max)
  {
    RetireHistory(s, f);
    RetireEntries(s, f);
    if s.flights[f].phase.ans.Cacheable() {
      TracksStore(s.cache.entries, History(s), s.cache.max, s.flights[f].host, Stamped(s, f));
    }
  }

  lemma RetireKeepsEntries(s: Sys, f: nat, k: Host)
    requires StoredOk(s) && Enabled(s, Retire(f)) && (k in s.cache.entries ==> EntryOk(s, k))
    requires k in RetireStep(s, f).cache.entries
    ensures EntryOk(RetireStep(s, f), k)
  {
    hide Newest;
    var s', m := RetireStep(s, f), s.cache.entries;
    if s.flights[f].phase.ans.Cacheable() {
      var m1 := m[s.flights[f].host := Stamped(s, f)];
      RetireEntries(s, f);
      NewestSame(m1, s.cache.max, k);
    }
  }

  lemma RetireKeeps(s: Sys, f: nat)
    requires Inv(s) && Enabled(s, Retire(f))
    ensures Inv(Next(s, Retire(f)))
  {
    RetireKeepsFlights(s, f);
    RetireKeepsThreads(s, f);
    RetireKeepsTracks(s, f);
    var s' := Next(s, Retire(f));
    forall k | k in s'.cache.entries ensures EntryOk(s', k) {
      RetireKeepsEntries(s, f, k);
    }
  }

  lemma CloseKeepsThreads(s: Sys, f: nat)
    requires Inv(s) && Enabled(s, Close(f))
    ensures var s' := Next(s, Close(f)); forall u: nat | u < |s'.threads| :: ThreadOk(s', u)
  {
    var s' := Next(s, Close(f));
    assert FlightOk(s, f) && ThreadOk(s, s.flights[f].owner);
    forall u: nat | u < |s'.threads| ensures ThreadOk(s', u) { assert ThreadOk(s, u); }
  }

  lemma CloseKeeps(s: Sys, f: nat)
    requires Inv(s) && Enabled(s, Close(f))
    ensures Inv(Next(s, Close(f)))
  {
    var s' := Next(s, Close(f));
    var o := s.flights[f].owner;
    assert FlightOk(s, f) && ThreadOk(s, o);
    TallyUpdate(s.threads, o, s'.threads[o], true);
    TallyUpdate(s.threads, o, s'.threads[o], false);
    CloseKeepsThreads(s, f);
    EntriesCarryOver(s, s');
    forall g: nat | g < |s'.flights| ensures FlightOk(s', g) { assert FlightOk(s, g); }
  }

  lemma WakeKeeps(s: Sys, t: nat)
    requires Inv(s) && Enabled(s, Wake(t))
    ensures Inv(Next(s, Wake(t)))
  {
    var f := s.threads[t].pc.flight;
    assert ThreadOk(s, t) && FlightOk(s, f);
    ThreadMoveKeeps(s, s.cache, t, Done(s.flights[f].phase.ans, FromFlight(f)));
  }

  lemma StepKeeps(s: Sys, a: Step)
    requires Inv(s)
    ensures Inv(Next(s, a))
  {
    if Enabled(s, a) {
      match a
      case Tick(d) => TickKeeps(s, d);
      case Call(h) => CallKeeps(s, h);
      case Enter(t) => EnterKeeps(s, t);
      case Return(f, ans) => ReturnKeeps(s, f, ans);
      case Retire(f) => RetireKeeps(s, f);
      case Close(f) => CloseKeeps(s, f);
      case Wake(t) => WakeKeeps(s, t);
    }
  }
}
