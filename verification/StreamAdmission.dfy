/** Any number of streams over any number of tunnels, interleaved at every atomic counter operation
    (connections/base/proxytunnel.go:149-223, global_limit.go:24-39, health_metrics.go:34-68). */
module StreamAdmission {
  import opened Wrappers
  import opened HealthMetrics

  datatype Outcome = Refused | Rejected | Failed | Served

  /** Where a stream stands inside HandleConnAsync; each name is the state reached by the last atomic operation. */
  datatype Pc =
    | Arrived
    | Counted(cur: int)      // the global counter was raised and read back as `cur`
    | Undoing                // over the limit: about to lower the counter again
    | Admitted               // holds a slot of the global budget
    | Pausing                // the tunnel is full: about to mark it paused
    | Full                   // rejected by the tunnel, slot not yet released
    | Passing                // read a free tunnel, not yet counted there
    | Totalled
    | Activated
    | Recorded               // RecordConnection returned true
    | BadRequest
    | Failing                // failure recorded, connection not yet released
    | Parsed
    | Serving
    | Unserving
    | Leaving(how: Outcome)  // only the global slot is left to release
    | Done(how: Outcome)

  datatype Stream = Stream(tunnel: nat, pc: Pc)

  /** A tunnel may run without metrics; then only the alive counter is kept. */
  datatype Tunnel = Tunnel(metrics: Option<Metrics>, alive: int)

  datatype Sys = Sys(limit: int, streamsActive: int, tunnels: seq<Tunnel>, streams: seq<Stream>)

  /** `Arrive` starts a stream on a tunnel; `Move` runs the next atomic operation of a stream, whose
      request parses or not. */
  datatype Step = Arrive(tunnel: nat) | Move(stream: nat, requestOk: bool)

  predicate Enabled(s: Sys, a: Step) {
    match a
    case Arrive(t) => t < |s.tunnels|
    case Move(i, _) => i < |s.streams| && s.streams[i].tunnel < |s.tunnels| && !s.streams[i].pc.Done?
  }

  /** After admission: no metrics means no tunnel check; otherwise load the active count and compare it. */
  function CheckTunnel(t: Tunnel): Pc {
    match t.metrics
    case None => Recorded
    case Some(m) => if m.AcceptsNewConnections() then Passing else Pausing
  }

  /** Where the next atomic operation takes a stream. */
  function NextPc(s: Sys, t: Tunnel, pc: Pc, requestOk: bool): Pc {
    match pc
    case Arrived => Counted(s.streamsActive + 1)
    case Counted(cur) => if cur > s.limit then Undoing else Admitted
    case Undoing => Done(Refused)
    case Admitted => CheckTunnel(t)
    case Pausing => Full
    case Full => Done(Rejected)
    case Passing => Totalled
    case Totalled => Activated
    case Activated => Recorded
    case Recorded => if requestOk then Parsed else BadRequest
    case BadRequest => Failing
    case Failing => Leaving(Failed)
    case Parsed => Serving
    case Serving => Unserving
    case Unserving => Leaving(Served)
    case Leaving(how) => Done(how)
    case Done(how) => Done(how)
  }

  /** What that operation adds to the global counter. */
  function BudgetStep(pc: Pc): int {
    match pc
    case Arrived => 1
    case Undoing => -1
    case Full => -1
    case Leaving(_) => -1
    case _ => 0
  }

  /** What that operation does to the tunnel's metrics. */
  function MetricsStep(m: Metrics, pc: Pc): Metrics {
    match pc
    case Pausing => m.(paused := true)
    case Passing => m.(total := m.total + 1)
    case Totalled => m.(active := m.active + 1)
    case Activated => m.(paused := false)
    case BadRequest => m.(failed := m.failed + 1)
    case Failing => m.(active := m.active - 1)
    case Unserving => m.(active := m.active - 1)
    case _ => m
  }

  /** What that operation adds to the tunnel's alive counter. */
  function AliveStep(pc: Pc): int {
    match pc
    case Parsed => 1
    case Serving => -1
    case _ => 0
  }

  function TunnelStep(t: Tunnel, pc: Pc): Tunnel {
    Tunnel(if t.metrics.None? then None else Some(MetricsStep(t.metrics.value, pc)), t.alive + AliveStep(pc))
  }

  function Advance(s: Sys, i: nat, requestOk: bool): Sys
    requires Enabled(s, Move(i, requestOk))
  {
    var Stream(t, pc) := s.streams[i];
    Sys(s.limit, s.streamsActive + BudgetStep(pc),
        s.tunnels[t := TunnelStep(s.tunnels[t], pc)],
        s.streams[i := Stream(t, NextPc(s, s.tunnels[t], pc, requestOk))])
  }

  function Next(s: Sys, a: Step): Sys {
    if !Enabled(s, a) then s else
    match a
    case Arrive(t) => s.(streams := s.streams + [Stream(t, Arrived)])
    case Move(i, ok) => Advance(s, i, ok)
  }

  function Run(s: Sys, steps: seq<Step>): Sys {
    if steps == [] then s else Next(Run(s, steps[..|steps| - 1]), steps[|steps| - 1])
  }

  /** Fresh tunnels with the given limits; `None` is a tunnel without metrics. */
  function Start(limit: int, maxConns: seq<Option<int>>): Sys {
    Sys(limit, 0, seq(|maxConns|, t requires 0 <= t < |maxConns| =>
      Tunnel(if maxConns[t].None? then None else Some(Metrics(0, 0, 0, false, maxConns[t].value)), 0)), [])
  }

  // ------------------------------------------------------------ counting streams

  /** What one stream contributes to a count. */
  datatype Gauge =
    | Unfinished      // arrived and not done
    | Budget          // raised the global counter and has not lowered it
    | Transit         // of these, the attempts not (yet) admitted
    | Held            // admitted and not finished
    | Slot(limit: int) // held, or about to be because it read a count within the limit
    | Window(t: nat)  // between the load and the add on tunnel t
    | Active(t: nat)
    | ActiveBelow(n: nat)
    | Alive(t: nat)
    | Total(t: nat)
    | Failures(t: nat)

  predicate Inside(pc: Pc) {
    pc.Activated? || pc.Recorded? || pc.BadRequest? || pc.Failing? || pc.Parsed? || pc.Serving? || pc.Unserving?
  }

  predicate IsHeld(pc: Pc) {
    Inside(pc) || pc.Admitted? || pc.Pausing? || pc.Full? || pc.Passing? || pc.Totalled? || pc.Leaving?
  }

  function Outcomes(pc: Pc): set<Outcome> {
    if pc.Leaving? || pc.Done? then {pc.how} else {}
  }

  predicate Counts(g: Gauge, st: Stream) {
    match g
    case Unfinished => !st.pc.Done?
    case Budget => st.pc.Counted? || st.pc.Undoing? || IsHeld(st.pc)
    case Transit => st.pc.Counted? || st.pc.Undoing?
    case Held => IsHeld(st.pc)
    case Slot(limit) => IsHeld(st.pc) || (st.pc.Counted? && st.pc.cur <= limit)
    case Window(t) => st.tunnel == t && (st.pc.Passing? || st.pc.Totalled?)
    case Active(t) => st.tunnel == t && Inside(st.pc)
    case ActiveBelow(n) => st.tunnel < n && Inside(st.pc)
    case Alive(t) => st.tunnel == t && st.pc.Serving?
    case Total(t) => st.tunnel == t &&
      (st.pc.Totalled? || Inside(st.pc) || Failed in Outcomes(st.pc) || Served in Outcomes(st.pc))
    case Failures(t) => st.tunnel == t && (st.pc.Failing? || Failed in Outcomes(st.pc))
  }

  function One(b: bool): nat { if b then 1 else 0 }

  function Count(g: Gauge, ss: seq<Stream>): nat {
    if ss == [] then 0 else Count(g, ss[..|ss| - 1]) + One(Counts(g, ss[|ss| - 1]))
  }

  lemma {:induction false} CountUpdate(g: Gauge, ss: seq<Stream>, i: nat, st: Stream)
    requires i < |ss|
    ensures Count(g, ss[i := st]) == Count(g, ss) - One(Counts(g, ss[i])) + One(Counts(g, st))
  {
    var n := |ss| - 1;
    if i == n {
      assert ss[i := st][..n] == ss[..n];
    } else {
      assert ss[i := st][..n] == ss[..n][i := st];
      CountUpdate(g, ss[..n], i, st);
    }
  }

  lemma {:induction false} CountLess(g: Gauge, h: Gauge, ss: seq<Stream>)
    requires forall st <- ss :: Counts(g, st) ==> Counts(h, st)
    ensures Count(g, ss) <= Count(h, ss)
  {
    if ss != [] {
      CountLess(g, h, ss[..|ss| - 1]);
    }
  }

  lemma {:induction false} CountNone(g: Gauge, ss: seq<Stream>)
    requires forall st <- ss :: !Counts(g, st)
    ensures Count(g, ss) == 0
  {
    if ss != [] {
      CountNone(g, ss[..|ss| - 1]);
    }
  }

  // ------------------------------------------------------------ the invariant

  ghost predicate TunnelOk(s: Sys, t: nat)
    requires t < |s.tunnels|
  {
    && s.tunnels[t].alive == Count(Alive(t), s.streams)
    && (s.tunnels[t].metrics.Some? ==>
          var m := s.tunnels[t].metrics.value;
          && m.active == Count(Active(t), s.streams)
          && m.total == Count(Total(t), s.streams)
          && m.failed == Count(Failures(t), s.streams))
  }

  ghost predicate Inv(s: Sys) {
    && s.streamsActive == Count(Budget, s.streams)
    && Count(Slot(s.limit), s.streams) <= s.limit
    && (forall i | 0 <= i < |s.streams| :: s.streams[i].tunnel < |s.tunnels|)
    && (forall t: nat | t < |s.tunnels| :: TunnelOk(s, t))
  }

  lemma StartOk(limit: int, maxConns: seq<Option<int>>)
    requires limit > 0
    ensures Inv(Start(limit, maxConns))
  {
  }

  lemma CountSnoc(g: Gauge, ss: seq<Stream>, st: Stream)
    ensures Count(g, ss + [st]) == Count(g, ss) + One(Counts(g, st))
  {
    assert (ss + [st])[..|ss|] == ss;
  }

  lemma ArriveKeeps(s: Sys, t: nat)
    requires Inv(s) && t < |s.tunnels|
    ensures Inv(Next(s, Arrive(t)))
  {
    hide Count;
    var s' := Next(s, Arrive(t));
    var st := Stream(t, Arrived);
    CountSnoc(Budget, s.streams, st);
    CountSnoc(Slot(s.limit), s.streams, st);
    forall u: nat | u < |s'.tunnels| ensures TunnelOk(s', u) {
      assert TunnelOk(s, u);
      CountSnoc(Alive(u), s.streams, st);
      CountSnoc(Active(u), s.streams, st);
      CountSnoc(Total(u), s.streams, st);
      CountSnoc(Failures(u), s.streams, st);
    }
  }

  lemma MoveCount(g: Gauge, s: Sys, i: nat, ok: bool)
    requires Enabled(s, Move(i, ok))
    ensures Count(g, Advance(s, i, ok).streams) ==
            Count(g, s.streams) - One(Counts(g, s.streams[i])) + One(Counts(g, Advance(s, i, ok).streams[i]))
  {
    CountUpdate(g, s.streams, i, Advance(s, i, ok).streams[i]);
  }

  lemma BudgetFollows(s: Sys, tun: Tunnel, st: Stream, ok: bool)
    ensures var st' := Stream(st.tunnel, NextPc(s, tun, st.pc, ok));
      && One(Counts(Budget, st')) == One(Counts(Budget, st)) + BudgetStep(st.pc)
      && (Counts(Slot(s.limit), st') ==>
            Counts(Slot(s.limit), st) || (st.pc.Arrived? && s.streamsActive + 1 <= s.limit))
  {
  }

  /** The global part: the budget counter, and the cap on the streams that read a count within the limit. */
  lemma MoveKeepsBudget(s: Sys, i: nat, ok: bool)
    requires Inv(s) && Enabled(s, Move(i, ok))
    ensures var s' := Advance(s, i, ok);
      s'.streamsActive == Count(Budget, s'.streams) && Count(Slot(s.limit), s'.streams) <= s.limit
  {
    MoveCount(Budget, s, i, ok);
    MoveCount(Slot(s.limit), s, i, ok);
    BudgetFollows(s, s.tunnels[s.streams[i].tunnel], s.streams[i], ok);
    CountLess(Slot(s.limit), Budget, s.streams);
  }

  /** Each tunnel gauge of a stream changes by what its step does to the tunnel's counters. */
  lemma GaugesFollow(s: Sys, tun: Tunnel, st: Stream, ok: bool)
    ensures var st' := Stream(st.tunnel, NextPc(s, tun, st.pc, ok));
      && One(Counts(Alive(st.tunnel), st')) == One(Counts(Alive(st.tunnel), st)) + AliveStep(st.pc)
      && (tun.metrics.Some? ==>
            var m, m' := tun.metrics.value, MetricsStep(tun.metrics.value, st.pc);
            && One(Counts(Active(st.tunnel), st')) - One(Counts(Active(st.tunnel), st)) == m'.active - m.active
            && One(Counts(Total(st.tunnel), st')) - One(Counts(Total(st.tunnel), st)) == m'.total - m.total
            && One(Counts(Failures(st.tunnel), st')) - One(Counts(Failures(st.tunnel), st)) == m'.failed - m.failed)
  {
  }

  lemma MoveKeepsOwnTunnel(s: Sys, i: nat, ok: bool)
    requires Enabled(s, Move(i, ok)) && TunnelOk(s, s.streams[i].tunnel)
    ensures TunnelOk(Advance(s, i, ok), s.streams[i].tunnel)
  {
    var t := s.streams[i].tunnel;
    MoveCount(Alive(t), s, i, ok);
    MoveCount(Active(t), s, i, ok);
    MoveCount(Total(t), s, i, ok);
    MoveCount(Failures(t), s, i, ok);
    GaugesFollow(s, s.tunnels[t], s.streams[i], ok);
  }

  lemma MoveKeepsOtherTunnel(s: Sys, i: nat, ok: bool, t: nat)
    requires Enabled(s, Move(i, ok)) && t < |s.tunnels| && t != s.streams[i].tunnel && TunnelOk(s, t)
    ensures TunnelOk(Advance(s, i, ok), t)
  {
    MoveCount(Alive(t), s, i, ok);
    MoveCount(Active(t), s, i, ok);
    MoveCount(Total(t), s, i, ok);
    MoveCount(Failures(t), s, i, ok);
    assert Advance(s, i, ok).streams[i].tunnel == s.streams[i].tunnel;
  }

  lemma StepKeeps(s: Sys, a: Step)
    requires Inv(s)
    ensures Inv(Next(s, a))
  {
    if Enabled(s, a) {
      match a
      case Arrive(t) => ArriveKeeps(s, t);
      case Move(i, ok) =>
        MoveKeepsBudget(s, i, ok);
        forall t: nat | t < |s.tunnels| ensures TunnelOk(Next(s, a), t) {
          assert TunnelOk(s, t);
          if t == s.streams[i].tunnel { MoveKeepsOwnTunnel(s, i, ok); } else { MoveKeepsOtherTunnel(s, i, ok, t); }
        }
    }
  }

  lemma {:induction false} RunKeeps(limit: int, maxConns: seq<Option<int>>, steps: seq<Step>)
    requires limit > 0
    ensures var s := Run(Start(limit, maxConns), steps);
      Inv(s) && s.limit == limit && |s.tunnels| == |maxConns|
  {
    if steps == [] {
      StartOk(limit, maxConns);
    } else {
      var n := |steps| - 1;
      RunKeeps(limit, maxConns, steps[..n]);
      StepKeeps(Run(Start(limit, maxConns), steps[..n]), steps[n]);
    }
  }
}
