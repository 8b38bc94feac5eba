/** Runs of every size that reach the bound of PoolTheorems.PoolCapped. */
module PoolOvershoot {
  import opened Wrappers
  import opened TunnelPool
  import opened PoolTheorems
  import Choice = ErrorBasedChoice

  /** As NewProxy makes it: switched off, without traffic. */
  predicate Unused(t: Tunnel) {
    !t.on && t.metrics.Some? && t.metrics.value.total == 0
  }

  /** `steps` lead to a pool of `n` unused tunnels, none of them added by NewProxyByErrCount, and respect
      `k` on the way. */
  ghost predicate Reached(max: nat, k: nat, steps: seq<Step>, n: nat, cs: seq<Caller>) {
    var s := Trace(steps, max);
    && s.callers == cs && |s.pool.tunnels| == n && (forall t <- s.pool.tunnels :: Unused(t))
    && s.replaced == 0 && AtMostCreating(steps, max, k)
  }

  /** What every caller of these runs asks for. */
  const WANT := Some("tls")

  lemma {:induction false} NoneToPick(ts: seq<Tunnel>, proto: string)
    requires forall t <- ts :: Unused(t)
    ensures PickByType(ts, proto) == (None, -1.0)
  {
    if ts != [] {
      assert Unused(ts[|ts| - 1]);
      NoneToPick(ts[..|ts| - 1], proto);
    }
  }

  lemma CreatorsSnoc(cs: seq<Caller>, c: Caller)
    ensures Creators(cs + [c]) == Creators(cs) + (if c.pc.Creating? then 1 else 0)
  {
    assert (cs + [c])[..|cs|] == cs;
  }

  lemma Extend(max: nat, k: nat, steps: seq<Step>, a: Step)
    requires AtMostCreating(steps, max, k) && Creators(Next(Trace(steps, max), a, max).callers) <= k
    ensures Trace(steps + [a], max) == Next(Trace(steps, max), a, max) && AtMostCreating(steps + [a], max, k)
  {
    hide Creators, Next;
    var all := steps + [a];
    assert all[..|steps|] == steps && all[..|all|] == all;
    forall n | 0 <= n <= |all| ensures Creators(Trace(all[..n], max).callers) <= k {
      if n <= |steps| {
        assert all[..n] == steps[..n];
      }
    }
  }

  /** A move of the newest caller that adds nothing to the pool. */
  lemma Advances(max: nat, k: nat, steps: seq<Step>, n: nat, cs: seq<Caller>, pc: Pc, pc': Pc)
    returns (steps': seq<Step>)
    requires Reached(max, k, steps, n, cs + [Caller(WANT, pc)])
    requires (pc.Called? && pc'.Searching?) || (pc.Searching? && pc'.Checking?) ||
             (pc.Checking? && pc'.Creating? && n < max && Creators(cs) < k)
    requires Creators(cs) <= k
    ensures Reached(max, k, steps', n, cs + [Caller(WANT, pc')])
  {
    hide Creators, Trace, AtMostCreating;
    var s, a := Trace(steps, max), Move(|cs|, "");
    NoneToPick(s.pool.tunnels, "tls");
    var s' := Next(s, a, max);
    assert s'.callers == cs + [Caller(WANT, pc')] && s'.pool == s.pool;
    CreatorsSnoc(cs, Caller(WANT, pc'));
    Extend(max, k, steps, a);
    steps' := steps + [a];
  }

  /** A new caller finds no tunnel, passes the count check and is about to create one. */
  lemma Begins(max: nat, k: nat, steps: seq<Step>, n: nat, cs: seq<Caller>) returns (steps': seq<Step>)
    requires Reached(max, k, steps, n, cs) && n < max && Creators(cs) < k
    ensures Reached(max, k, steps', n, cs + [Caller(WANT, Creating)])
    ensures Creators(cs + [Caller(WANT, Creating)]) == Creators(cs) + 1
  {
    hide Creators, Trace, AtMostCreating;
    CreatorsSnoc(cs, Caller(WANT, Called));
    Extend(max, k, steps, Call(WANT));
    steps' := steps + [Call(WANT)];
    steps' := Advances(max, k, steps', n, cs, Called, Searching);
    steps' := Advances(max, k, steps', n, cs, Searching, Checking);
    steps' := Advances(max, k, steps', n, cs, Checking, Creating);
    CreatorsSnoc(cs, Caller(WANT, Creating));
  }

  /** The caller adds its tunnel, whatever the size of the pool by now. */
  lemma Adds(max: nat, k: nat, steps: seq<Step>, n: nat, cs: seq<Caller>, i: nat)
    returns (steps': seq<Step>, cs': seq<Caller>)
    requires Reached(max, k, steps, n, cs) && i < |cs| && cs[i] == Caller(WANT, Creating) && Creators(cs) <= k
    ensures Reached(max, k, steps', n + 1, cs') && Creators(cs') == Creators(cs) - 1
    ensures |cs'| == |cs| && forall j | 0 <= j < |cs| && j != i :: cs'[j] == cs[j]
  {
    hide Creators, Trace, AtMostCreating;
    var s, a := Trace(steps, max), Move(i, "");
    var s' := Next(s, a, max);
    cs' := s'.callers;
    CreatorsUpdate(cs, i, cs'[i]);
    Extend(max, k, steps, a);
    steps' := steps + [a];
  }

  /** One caller after the other up to `n` tunnels. */
  lemma {:induction false} ManyAdded(max: nat, k: nat, n: nat) returns (steps: seq<Step>, cs: seq<Caller>)
    requires n <= max && k > 0
    ensures Reached(max, k, steps, n, cs) && Creators(cs) == 0
  {
    if n == 0 {
      steps, cs := [], [];
    } else {
      steps, cs := ManyAdded(max, k, n - 1);
      steps := Begins(max, k, steps, n - 1, cs);
      steps, cs := Adds(max, k, steps, n - 1, cs + [Caller(WANT, Creating)], |cs|);
    }
  }

  /** Then `j` callers that all pass the count check before any of them adds. */
  lemma {:induction false} ManyCreating(max: nat, k: nat, j: nat) returns (steps: seq<Step>, cs: seq<Caller>, from: nat)
    requires max > 0 && k > 0 && j <= k
    ensures Reached(max, k, steps, max - 1, cs) && Creators(cs) == j
    ensures |cs| == from + j && forall i | from <= i < |cs| :: cs[i] == Caller(WANT, Creating)
  {
    hide Creators;
    if j == 0 {
      steps, cs := ManyAdded(max, k, max - 1);
      from := |cs|;
    } else {
      steps, cs, from := ManyCreating(max, k, j - 1);
      steps := Begins(max, k, steps, max - 1, cs);
      cs := cs + [Caller(WANT, Creating)];
    }
  }

  lemma {:induction false} AllAdd(max: nat, k: nat, steps: seq<Step>, n: nat, cs: seq<Caller>, from: nat)
    returns (steps': seq<Step>, cs': seq<Caller>)
    requires Reached(max, k, steps, n, cs) && Creators(cs) <= k
    requires from <= |cs| && forall i | from <= i < |cs| :: cs[i] == Caller(WANT, Creating)
    ensures Reached(max, k, steps', n + |cs| - from, cs') && Creators(cs') <= k
    decreases |cs| - from
  {
    hide Creators, Reached;
    if from == |cs| {
      steps', cs' := steps, cs;
    } else {
      var next, left := Adds(max, k, steps, n, cs, from);
      steps', cs' := AllAdd(max, k, next, n + 1, left, from + 1);
    }
  }

  // ------------------------------------------------------------ error-based creations on top

  /** Unused tunnels have no error rate, so there is a choice: an unused protocol or the default. */
  lemma {:induction false} NoTraffic(ts: seq<Tunnel>, proto: string)
    requires forall t <- ts :: Unused(t)
    ensures Choice.StatsOf(ts, proto).total == 0
  {
    if ts != [] {
      assert Unused(ts[|ts| - 1]);
      NoTraffic(ts[..|ts| - 1], proto);
    }
  }

  lemma UnusedChoice(ts: seq<Tunnel>) returns (best: string)
    requires forall t <- ts :: Unused(t)
    ensures Choice.IsChoice(ts, best)
  {
    hide Choice.StatsOf, Choice.Protocols;
    if k :| k in Choice.Protocols(ts) && Choice.StatsOf(ts, k).count == 0 {
      best := k;
    } else {
      best := "quic";
      forall k | k in Choice.Protocols(ts) ensures !Choice.Usable(Choice.StatsOf(ts, k)) {
        NoTraffic(ts, k);
      }
    }
  }

  /** One more tunnel by NewProxyByErrCount. */
  lemma Replaces(max: nat, k: nat, steps: seq<Step>) returns (steps': seq<Step>)
    requires AtMostCreating(steps, max, k) && forall t <- Trace(steps, max).pool.tunnels :: Unused(t)
    ensures AtMostCreating(steps', max, k) && forall t <- Trace(steps', max).pool.tunnels :: Unused(t)
    ensures |Trace(steps', max).pool.tunnels| == |Trace(steps, max).pool.tunnels| + 1
    ensures Trace(steps', max).replaced == Trace(steps, max).replaced + 1
  {
    hide Creators, Trace, AtMostCreating, Choice.IsChoice;
    var s := Trace(steps, max);
    var best := UnusedChoice(s.pool.tunnels);
    var c, i := Caller(Some(best), Replacing), |s.callers|;
    var s1 := Next(s, Replace(best), max);
    CreatorsSnoc(s.callers, c);
    CreatorsNow(steps, max, k);
    Extend(max, k, steps, Replace(best));
    var s2 := Next(s1, Move(i, ""), max);
    CreatorsUpdate(s1.callers, i, s2.callers[i]);
    Extend(max, k, steps + [Replace(best)], Move(i, ""));
    steps' := steps + [Replace(best)] + [Move(i, "")];
  }

  lemma CreatorsNow(steps: seq<Step>, max: nat, k: nat)
    requires AtMostCreating(steps, max, k)
    ensures Creators(Trace(steps, max).callers) <= k
  {
    assert steps[..|steps|] == steps;
  }

  lemma {:induction false} ManyReplaced(max: nat, k: nat, from: seq<Step>, e: nat) returns (steps: seq<Step>)
    requires AtMostCreating(from, max, k) && forall t <- Trace(from, max).pool.tunnels :: Unused(t)
    ensures AtMostCreating(steps, max, k) && forall t <- Trace(steps, max).pool.tunnels :: Unused(t)
    ensures |Trace(steps, max).pool.tunnels| == |Trace(from, max).pool.tunnels| + e
    ensures Trace(steps, max).replaced == Trace(from, max).replaced + e
  {
    hide Trace, AtMostCreating, Unused;
    if e == 0 {
      steps := from;
    } else {
      steps := ManyReplaced(max, k, from, e - 1);
      steps := Replaces(max, k, steps);
    }
  }

  lemma FillsRoom(max: nat, k: nat) returns (steps: seq<Step>, cs: seq<Caller>)
    requires max > 0
    ensures Reached(max, k, steps, Room(max, k), cs)
  {
    if k == 0 {
      steps, cs := [], [];
    } else {
      var from;
      steps, cs, from := ManyCreating(max, k, k);
      steps, cs := AllAdd(max, k, steps, max - 1, cs, from);
    }
  }

  /** The bound of PoolCapped is reached for every cap, every number of racing callers and every number of
      error-based creations. */
  lemma PoolOvershoots(max: nat, k: nat, e: nat) returns (steps: seq<Step>)
    requires max > 0
    ensures AtMostCreating(steps, max, k) && Trace(steps, max).replaced == e
    ensures |Trace(steps, max).pool.tunnels| == Room(max, k) + e
  {
    var cs;
    steps, cs := FillsRoom(max, k);
    steps := ManyReplaced(max, k, steps, e);
  }

  /** The cap holds in all runs with at most `k` GetProxy callers at once between count check and add, and
      at most `e` error-based creations. */
  ghost predicate CapKept(max: nat, k: nat, e: nat) {
    forall steps | AtMostCreating(steps, max, k) && Trace(steps, max).replaced <= e ::
      |Trace(steps, max).pool.tunnels| <= max
  }

  /** The pool keeps its cap in all these runs exactly when no two callers race and there is no error-based
      creation, or when there are only error-based creations and no more of them than the cap. */
  lemma CapKeptIff(max: nat, k: nat, e: nat)
    requires max > 0
    ensures CapKept(max, k, e) <==> (k == 1 && e == 0) || (k == 0 && e <= max)
  {
    if Room(max, k) + e <= max {
      forall steps | AtMostCreating(steps, max, k) && Trace(steps, max).replaced <= e
        ensures |Trace(steps, max).pool.tunnels| <= max {
        PoolCapped(steps, max, k);
      }
    } else {
      var steps := PoolOvershoots(max, k, e);
      assert |Trace(steps, max).pool.tunnels| > max;
    }
  }
}
