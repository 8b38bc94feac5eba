/** Conservation of tunnels over every run of adds and deletes, and the tunnel cap under concurrent
    GetProxy calls (servercontroll/proxy_release.go:39-206). */
module PoolTheorems {
  import opened Wrappers
  import HM = HealthMetrics
  import opened TunnelPool
  import Choice = ErrorBasedChoice

  // ------------------------------------------------------------ conservation

  datatype Op = AddOp(t: Tunnel) | DelOp(name: string)

  function Apply(p: Pool, op: Op): Pool {
    match op
    case AddOp(t) => Add(p, t)
    case DelOp(name) => Delete(p, name)
  }

  function Run(ops: seq<Op>): Pool {
    if ops == [] then EMPTY_POOL else Apply(Run(ops[..|ops| - 1]), ops[|ops| - 1])
  }

  /** All tunnels ever added, in order. */
  function Added(ops: seq<Op>): seq<Tunnel> {
    if ops == [] then []
    else Added(ops[..|ops| - 1]) + (if ops[|ops| - 1].AddOp? then [ops[|ops| - 1].t] else [])
  }

  lemma CountSnoc(ts: seq<Tunnel>, t: Tunnel, proto: string)
    ensures CountOf(ts + [t], proto) == CountOf(ts, proto) + (if t.proto == proto then 1 else 0)
  {
    assert (ts + [t])[..|ts|] == ts;
  }

  lemma {:induction false} CountSplit(ts: seq<Tunnel>, name: string, proto: string)
    ensures CountOf(ts, proto) == CountOf(Named(ts, name), proto) + CountOf(Others(ts, name), proto)
  {
    if ts != [] {
      var init, last := ts[..|ts| - 1], ts[|ts| - 1];
      CountSplit(init, name, proto);
      CountSnoc(Named(init, name), last, proto);
      CountSnoc(Others(init, name), last, proto);
      assert Named(init, name) + [] == Named(init, name) && Others(init, name) + [] == Others(init, name);
    }
  }

  /** For each protocol, tunnels added = tunnels in the pool + tunnels counted as removed. */
  lemma {:induction false} TunnelsConserved(ops: seq<Op>, proto: string)
    requires proto in KNOWN
    ensures var p := Run(ops);
      proto in p.errCount && CountOf(Added(ops), proto) == CountOf(p.tunnels, proto) + p.errCount[proto]
  {
    hide Named, Others, Raise;
    if ops != [] {
      var init, last := ops[..|ops| - 1], ops[|ops| - 1];
      TunnelsConserved(init, proto);
      var p := Run(init);
      match last
      case AddOp(t) =>
        assert (p.tunnels + [t])[..|p.tunnels|] == p.tunnels;
        assert (Added(init) + [t])[..|Added(init)|] == Added(init);
      case DelOp(name) =>
        assert Added(init) + [] == Added(init);
        CountSplit(p.tunnels, name, proto);
        RaiseCounts(p.errCount, Named(p.tunnels, name));
    }
  }

  lemma {:induction false} AbsentName(ts: seq<Tunnel>, name: string)
    requires forall t <- ts :: t.id != name
    ensures Named(ts, name) == [] && Others(ts, name) == ts
  {
    if ts != [] {
      AbsentName(ts[..|ts| - 1], name);
    }
  }

  lemma {:induction false} OthersHaveOtherNames(ts: seq<Tunnel>, name: string)
    ensures forall t <- Others(ts, name) :: t.id != name && t in ts
    ensures forall t <- ts :: t.id != name ==> t in Others(ts, name)
  {
    if ts != [] {
      assert ts == ts[..|ts| - 1] + [ts[|ts| - 1]];
      OthersHaveOtherNames(ts[..|ts| - 1], name);
    }
  }

  /** Deleting keeps exactly the tunnels of other names; deleting a gone tunnel changes nothing. */
  lemma DeleteTwice(p: Pool, name: string)
    ensures Delete(Delete(p, name), name) == Delete(p, name)
    ensures forall t :: t in Delete(p, name).tunnels <==> t in p.tunnels && t.id != name
  {
    OthersHaveOtherNames(p.tunnels, name);
    AbsentName(Others(p.tunnels, name), name);
  }

  // ------------------------------------------------------------ the cap under concurrent callers

  /** `Replacing` is inside NewProxyByErrCount, after it read the statistics. */
  datatype Pc = Called | Searching | Checking | FallingBack | Creating | Replacing | Done(t: Tunnel)

  /** One GetProxy call, for a wanted protocol or any, or one NewProxyByErrCount call, for the protocol it chose. */
  datatype Caller = Caller(want: Option<string>, pc: Pc)

  /** `replaced` counts the tunnels NewProxyByErrCount has added. */
  datatype Sys = Sys(pool: Pool, callers: seq<Caller>, replaced: nat)

  /** `Health` is any change of a tunnel's counters or switch by its own streams; `name` is the id a
      tunnel gets that has to be created. `Replace` is NewProxyByErrCount settling on a protocol; its
      tunnel is added later, without a look at the pool's size. */
  datatype Step =
    | Call(want: Option<string>)
    | Replace(best: string)
    | Move(i: nat, name: string)
    | Del(name: string)
    | Health(j: nat, on: bool, metrics: Option<HM.Metrics>)

  function Pick(p: Pool, want: Option<string>): Option<Tunnel> {
    if want.None? then PickBest(p.tunnels).tunnel else PickByType(p.tunnels, want.value).0
  }

  function MoveTo(s: Sys, i: nat, max: nat, name: string): Sys
    requires i < |s.callers|
  {
    var c, n := s.callers[i], |s.pool.tunnels|;
    var made := Tunnel(name, KindOf(c.want.GetOr("quic")), false, Some(HM.Metrics(0, 0, 0, false, 1000)));
    var pc := match c.pc
      case Called => if c.want.None? && n == 0 then Creating else Searching
      case Searching => (match Pick(s.pool, c.want) case Some(t) => Done(t) case None => Checking)
      case Checking => if n >= max then FallingBack else Creating
      case FallingBack => if n > 0 then Done(s.pool.tunnels[0]) else Creating
      case Creating => Done(made)
      case Replacing => Done(made)
      case Done(t) => Done(t);
    Sys(if c.pc.Creating? || c.pc.Replacing? then Add(s.pool, made) else s.pool, s.callers[i := c.(pc := pc)],
        if c.pc.Replacing? then s.replaced + 1 else s.replaced)
  }

  function Next(s: Sys, a: Step, max: nat): Sys {
    match a
    case Call(want) => s.(callers := s.callers + [Caller(want, Called)])
    case Replace(best) =>
      if Choice.IsChoice(s.pool.tunnels, best) then s.(callers := s.callers + [Caller(Some(best), Replacing)]) else s
    case Move(i, name) => if i < |s.callers| then MoveTo(s, i, max, name) else s
    case Del(name) => s.(pool := Delete(s.pool, name))
    case Health(j, on, m) =>
      if j < |s.pool.tunnels|
      then s.(pool := s.pool.(tunnels := s.pool.tunnels[j := s.pool.tunnels[j].(on := on, metrics := m)]))
      else s
  }

  function Trace(steps: seq<Step>, max: nat): Sys {
    if steps == [] then Sys(EMPTY_POOL, [], 0) else Next(Trace(steps[..|steps| - 1], max), steps[|steps| - 1], max)
  }

  /** Callers that passed the count check and have not added their tunnel yet. */
  function Creators(cs: seq<Caller>): nat {
    if cs == [] then 0 else Creators(cs[..|cs| - 1]) + (if cs[|cs| - 1].pc.Creating? then 1 else 0)
  }

  lemma {:induction false} CreatorsUpdate(cs: seq<Caller>, i: nat, c: Caller)
    requires i < |cs|
    ensures Creators(cs[i := c]) ==
            Creators(cs) - (if cs[i].pc.Creating? then 1 else 0) + (if c.pc.Creating? then 1 else 0)
  {
    var n := |cs| - 1;
    if i == n {
      assert cs[i := c][..n] == cs[..n];
    } else {
      assert cs[i := c][..n] == cs[..n][i := c];
      CreatorsUpdate(cs[..n], i, c);
    }
  }

  lemma {:induction false} OthersShrink(ts: seq<Tunnel>, name: string)
    ensures |Others(ts, name)| <= |ts|
  {
    if ts != [] {
      OthersShrink(ts[..|ts| - 1], name);
    }
  }

  ghost predicate AtMostCreating(steps: seq<Step>, max: nat, k: nat) {
    forall n | 0 <= n <= |steps| :: Creators(Trace(steps[..n], max).callers) <= k
  }

  /** The largest pool that at most `k` callers at once between check and add can build through GetProxy. */
  function Room(max: nat, k: nat): nat {
    if k == 0 then 0 else max + k - 1
  }

  lemma CapStep(s: Sys, a: Step, max: nat, k: nat)
    requires max > 0 && |s.pool.tunnels| + Creators(s.callers) <= Room(max, k) + s.replaced
    requires Creators(Next(s, a, max).callers) <= k
    ensures var s' := Next(s, a, max); |s'.pool.tunnels| + Creators(s'.callers) <= Room(max, k) + s'.replaced
  {
    hide Others, Choice.IsChoice;
    match a
    case Call(_) => assert Next(s, a, max).callers[..|s.callers|] == s.callers;
    case Replace(_) => assert Next(s, a, max) != s ==> Next(s, a, max).callers[..|s.callers|] == s.callers;
    case Move(i, name) =>
      if i < |s.callers| {
        CreatorsUpdate(s.callers, i, Next(s, a, max).callers[i]);
      }
    case Del(name) => OthersShrink(s.pool.tunnels, name);
    case Health(_, _, _) =>
  }

  lemma {:induction false} CapBound(steps: seq<Step>, max: nat, k: nat)
    requires max > 0 && AtMostCreating(steps, max, k)
    ensures var s := Trace(steps, max); |s.pool.tunnels| + Creators(s.callers) <= Room(max, k) + s.replaced
  {
    if steps != [] {
      var n := |steps| - 1;
      forall m | 0 <= m <= n ensures Creators(Trace(steps[..n][..m], max).callers) <= k {
        assert steps[..n][..m] == steps[..m];
      }
      CapBound(steps[..n], max, k);
      assert steps[..|steps|] == steps;
      CapStep(Trace(steps[..n], max), steps[n], max, k);
    }
  }

  /** In every run, with at most `k` GetProxy callers at once between the count check and the add, the pool
      never exceeds `max + k - 1` plus the tunnels NewProxyByErrCount has added, which nothing limits. */
  lemma PoolCapped(steps: seq<Step>, max: nat, k: nat)
    requires max > 0 && AtMostCreating(steps, max, k)
    ensures |Trace(steps, max).pool.tunnels| <= Room(max, k) + Trace(steps, max).replaced
  {
    CapBound(steps, max, k);
  }

  /** A call that runs alone does what ProxyPool.GetProxy states. */
  lemma SoloCall(s: Sys, i: nat, max: nat, name: string)
    requires max > 0 && i < |s.callers| && s.callers[i].pc.Called?
    ensures var want, ts := s.callers[i].want, s.pool.tunnels;
      var s4 := MoveTo(MoveTo(MoveTo(MoveTo(s, i, max, name), i, max, name), i, max, name), i, max, name);
      var made := Tunnel(name, KindOf(want.GetOr("quic")), false, Some(HM.Metrics(0, 0, 0, false, 1000)));
      match Pick(s.pool, want)
      case Some(t) => s4.pool == s.pool && s4.callers[i].pc == Done(t)
      case None =>
        if |ts| >= max then s4.pool == s.pool && s4.callers[i].pc == Done(ts[0])
        else s4.pool == Add(s.pool, made) && s4.callers[i].pc == Done(made)
  {
    var s1 := MoveTo(s, i, max, name);
    var s2 := MoveTo(s1, i, max, name);
    var s3 := MoveTo(s2, i, max, name);
    if s.pool.tunnels == [] && s.callers[i].want.None? {
      assert PickBest([]).tunnel == None;
      assert s1.callers[i].pc == Creating;
    }
  }
}
