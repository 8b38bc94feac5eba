/** How far the counters can go: runs of every size that reach the bounds of StreamTheorems. */
module StreamOvershoot {
  import opened Wrappers
  import opened HealthMetrics
  import opened StreamAdmission
  import opened StreamTheorems

  /** The limits under which a run is built: one tunnel, at most `k` streams between load and add. */
  datatype Setting = Setting(limit: int, maxConn: Option<int>, k: nat) {
    function Begin(): Sys { Start(limit, [maxConn]) }
  }

  /** `steps` lead to one tunnel `t` with these streams, `b` of them counted, and respect the setting on the way. */
  ghost predicate Reached(x: Setting, steps: seq<Step>, b: int, t: Tunnel, ss: seq<Stream>) {
    && Run(x.Begin(), steps) == Sys(x.limit, b, [t], ss)
    && AtMostInWindow(x.Begin(), steps, 0, x.k)
    && forall st <- ss :: st.tunnel == 0
  }

  lemma Begins(x: Setting)
    ensures var t := Tunnel(if x.maxConn.None? then None else Some(Metrics(0, 0, 0, false, x.maxConn.value)), 0);
      Reached(x, [], 0, t, [])
  {
    var t := Tunnel(if x.maxConn.None? then None else Some(Metrics(0, 0, 0, false, x.maxConn.value)), 0);
    assert x.Begin().tunnels == [t];
  }

  lemma Extend(x: Setting, steps: seq<Step>, a: Step, b: int, t: Tunnel, ss: seq<Stream>)
    requires AtMostInWindow(x.Begin(), steps, 0, x.k) && Next(Run(x.Begin(), steps), a) == Sys(x.limit, b, [t], ss)
    requires Count(Window(0), ss) <= x.k && forall st <- ss :: st.tunnel == 0
    ensures Reached(x, steps + [a], b, t, ss)
  {
    hide Count, Next;
    var all := steps + [a];
    assert all[..|steps|] == steps && all[..|all|] == all;
    forall n | 0 <= n <= |all| ensures Count(Window(0), Run(x.Begin(), all[..n]).streams) <= x.k {
      if n <= |steps| {
        assert all[..n] == steps[..n];
      }
    }
  }

  lemma Arrives(x: Setting, steps: seq<Step>, b: int, t: Tunnel, ss: seq<Stream>) returns (steps': seq<Step>)
    requires Reached(x, steps, b, t, ss) && Count(Window(0), ss) <= x.k
    ensures Reached(x, steps', b, t, ss + [Stream(0, Arrived)])
  {
    hide Count, Run, AtMostInWindow;
    CountSnoc(Window(0), ss, Stream(0, Arrived));
    Extend(x, steps, Arrive(0), b, t, ss + [Stream(0, Arrived)]);
    steps' := steps + [Arrive(0)];
  }

  /** One move of any stream. */
  lemma Moves(x: Setting, steps: seq<Step>, b: int, t: Tunnel, ss: seq<Stream>, i: nat)
    returns (steps': seq<Step>)
    requires Reached(x, steps, b, t, ss) && i < |ss| && !ss[i].pc.Done?
    requires var pc' := NextPc(Sys(x.limit, b, [t], ss), t, ss[i].pc, true);
      Count(Window(0), ss) - One(Counts(Window(0), ss[i])) + One(Counts(Window(0), Stream(0, pc'))) <= x.k
    ensures var pc' := NextPc(Sys(x.limit, b, [t], ss), t, ss[i].pc, true);
      Reached(x, steps', b + BudgetStep(ss[i].pc), TunnelStep(t, ss[i].pc), ss[i := Stream(0, pc')])
  {
    hide Count, Run, AtMostInWindow;
    var s := Sys(x.limit, b, [t], ss);
    var ss' := ss[i := Stream(0, NextPc(s, t, ss[i].pc, true))];
    assert ss[i] in ss;
    assert [t][0 := TunnelStep(t, ss[i].pc)] == [TunnelStep(t, ss[i].pc)];
    CountUpdate(Window(0), ss, i, ss'[i]);
    Extend(x, steps, Move(i, true), b + BudgetStep(ss[i].pc), TunnelStep(t, ss[i].pc), ss');
    steps' := steps + [Move(i, true)];
  }

  /** One move of the newest stream, with its effect named. */
  lemma LastMoves(
      x: Setting, steps: seq<Step>, b: int, t: Tunnel, ss: seq<Stream>, pc: Pc, b': int, t': Tunnel, pc': Pc)
    returns (steps': seq<Step>)
    requires Reached(x, steps, b, t, ss + [Stream(0, pc)]) && !pc.Done?
    requires pc' == NextPc(Sys(x.limit, b, [t], []), t, pc, true) && b' == b + BudgetStep(pc) && t' == TunnelStep(t, pc)
    requires Count(Window(0), ss) + One(Counts(Window(0), Stream(0, pc'))) <= x.k
    ensures Reached(x, steps', b', t', ss + [Stream(0, pc')])
  {
    hide Count, Run, AtMostInWindow;
    CountSnoc(Window(0), ss, Stream(0, pc));
    steps' := Moves(x, steps, b, t, ss + [Stream(0, pc)], |ss|);
    assert (ss + [Stream(0, pc)])[|ss| := Stream(0, pc')] == ss + [Stream(0, pc')];
  }

  /** A new stream raises the global counter and reads it back. */
  lemma IsCounted(x: Setting, steps: seq<Step>, b: int, t: Tunnel, ss: seq<Stream>) returns (steps': seq<Step>)
    requires Reached(x, steps, b, t, ss) && Count(Window(0), ss) <= x.k
    ensures Reached(x, steps', b + 1, t, ss + [Stream(0, Counted(b + 1))])
  {
    hide Count, Reached;
    steps' := Arrives(x, steps, b, t, ss);
    steps' := LastMoves(x, steps', b, t, ss, Arrived, b + 1, t, Counted(b + 1));
  }

  lemma IsAdmitted(x: Setting, steps: seq<Step>, b: int, t: Tunnel, ss: seq<Stream>) returns (steps': seq<Step>)
    requires Reached(x, steps, b, t, ss) && Count(Window(0), ss) <= x.k && b < x.limit
    ensures Reached(x, steps', b + 1, t, ss + [Stream(0, Admitted)])
  {
    hide Count, Reached;
    steps' := IsCounted(x, steps, b, t, ss);
    steps' := LastMoves(x, steps', b + 1, t, ss, Counted(b + 1), b + 1, t, Admitted);
  }

  // ------------------------------------------------------------ the global counter

  lemma CountsOfNew(ss: seq<Stream>, pc: Pc)
    requires pc.Admitted? || pc.Counted?
    ensures Count(Held, ss + [Stream(0, pc)]) == Count(Held, ss) + (if pc.Admitted? then 1 else 0)
    ensures Count(Window(0), ss + [Stream(0, pc)]) == Count(Window(0), ss)
  {
    CountSnoc(Held, ss, Stream(0, pc));
    CountSnoc(Window(0), ss, Stream(0, pc));
  }

  lemma {:induction false} ManyAdmitted(limit: int, n: nat) returns (steps: seq<Step>, ss: seq<Stream>)
    requires n <= limit
    ensures Reached(Setting(limit, None, 0), steps, n, Tunnel(None, 0), ss)
    ensures Count(Held, ss) == n && Count(Window(0), ss) == 0 && |ss| == n
  {
    hide Count, Run, AtMostInWindow;
    var x := Setting(limit, None, 0);
    if n == 0 {
      Begins(x);
      CountNone(Held, []);
      CountNone(Window(0), []);
      steps, ss := [], [];
    } else {
      steps, ss := ManyAdmitted(limit, n - 1);
      steps := IsAdmitted(x, steps, n - 1, Tunnel(None, 0), ss);
      CountsOfNew(ss, Admitted);
      ss := ss + [Stream(0, Admitted)];
    }
  }

  lemma {:induction false} ManyCounted(limit: int, m: nat) returns (steps: seq<Step>, ss: seq<Stream>)
    requires limit >= 0
    ensures Reached(Setting(limit, None, 0), steps, limit + m, Tunnel(None, 0), ss)
    ensures Count(Held, ss) == limit && Count(Window(0), ss) == 0 && |ss| == limit + m
  {
    hide Count, Reached;
    var x := Setting(limit, None, 0);
    if m == 0 {
      steps, ss := ManyAdmitted(limit, limit);
    } else {
      steps, ss := ManyCounted(limit, m - 1);
      steps := IsCounted(x, steps, limit + m - 1, Tunnel(None, 0), ss);
      CountsOfNew(ss, Counted(limit + m));
      ss := ss + [Stream(0, Counted(limit + m))];
    }
  }

  /** The global counter has no bound of its own: while the admitted streams fill the limit exactly, any
      number of undecided attempts can be counted on top. */
  lemma CounterMayOvershoot(limit: int, extra: nat) returns (steps: seq<Step>)
    requires limit > 0
    ensures var s := Run(Start(limit, [None]), steps);
      s.limit == limit && s.streamsActive == limit + extra && Count(Held, s.streams) == limit
  {
    var ss;
    steps, ss := ManyCounted(limit, extra);
  }

  /** At every point of the run at most `n` streams have arrived and are not done. */
  ghost predicate AtMostUnfinished(s: Sys, steps: seq<Step>, n: nat) {
    forall m | 0 <= m <= |steps| :: Count(Unfinished, Run(s, steps[..m]).streams) <= n
  }

  /** The global counter itself stays within the limit in all these runs, on any tunnels. */
  ghost predicate CounterKept(limit: int, n: nat) {
    forall maxConns, steps | AtMostUnfinished(Start(limit, maxConns), steps, n) ::
      Run(Start(limit, maxConns), steps).streamsActive <= limit
  }

  lemma {:induction false} CountBounded(g: Gauge, ss: seq<Stream>)
    ensures Count(g, ss) <= |ss|
  {
    if ss != [] {
      CountBounded(g, ss[..|ss| - 1]);
    }
  }

  lemma {:induction false} StreamsGrow(s: Sys, steps: seq<Step>, m: nat)
    requires m <= |steps|
    ensures |Run(s, steps[..m]).streams| <= |Run(s, steps).streams|
    decreases |steps|
  {
    if m == |steps| {
      assert steps[..m] == steps;
    } else {
      var n := |steps| - 1;
      StreamsGrow(s, steps[..n], m);
      assert steps[..n][..m] == steps[..m];
    }
  }

  /** The counter stays within the limit in all runs with at most `n` unfinished streams exactly when `n` does. */
  lemma CounterKeptIff(limit: int, n: nat)
    requires limit > 0
    ensures CounterKept(limit, n) <==> n <= limit
  {
    hide Count, Run;
    if n <= limit {
      forall maxConns, steps | AtMostUnfinished(Start(limit, maxConns), steps, n)
        ensures Run(Start(limit, maxConns), steps).streamsActive <= limit {
        RunKeeps(limit, maxConns, steps);
        CountLess(Budget, Unfinished, Run(Start(limit, maxConns), steps).streams);
        assert steps[..|steps|] == steps;
      }
    } else {
      var steps, ss := ManyCounted(limit, 1);
      forall m | 0 <= m <= |steps| ensures Count(Unfinished, Run(Start(limit, [None]), steps[..m]).streams) <= n {
        StreamsGrow(Start(limit, [None]), steps, m);
        CountBounded(Unfinished, Run(Start(limit, [None]), steps[..m]).streams);
      }
      assert AtMostUnfinished(Start(limit, [None]), steps, n);
      assert Run(Start(limit, [None]), steps).streamsActive > limit;
    }
  }

  // ------------------------------------------------------------ the tunnel limit

  /** A tunnel with `n` active connections out of `n` so far. */
  function Loaded(n: nat, max: int): Tunnel {
    Tunnel(Some(Metrics(n, n, 0, false, max)), 0)
  }

  /** A new stream passes the check of a tunnel with a free place. */
  lemma EntersWindow(x: Setting, steps: seq<Step>, b: int, n: nat, max: int, ss: seq<Stream>)
    returns (steps': seq<Step>)
    requires Reached(x, steps, b, Loaded(n, max), ss) && b < x.limit && (max <= 0 || n < max)
    requires Count(Window(0), ss) < x.k
    ensures Reached(x, steps', b + 1, Loaded(n, max), ss + [Stream(0, Passing)])
    ensures Count(Window(0), ss + [Stream(0, Passing)]) == Count(Window(0), ss) + 1
  {
    hide Count, Reached;
    steps' := IsAdmitted(x, steps, b, Loaded(n, max), ss);
    steps' := LastMoves(x, steps', b + 1, Loaded(n, max), ss, Admitted, b + 1, Loaded(n, max), Passing);
    CountSnoc(Window(0), ss, Stream(0, Passing));
  }

  /** A stream in the window counts itself on the tunnel, full or not. */
  lemma LeavesWindow(x: Setting, steps: seq<Step>, b: int, n: nat, max: int, ss: seq<Stream>, i: nat)
    returns (steps': seq<Step>)
    requires Reached(x, steps, b, Loaded(n, max), ss) && i < |ss| && ss[i] == Stream(0, Passing)
    requires Count(Window(0), ss) <= x.k
    ensures Reached(x, steps', b, Loaded(n + 1, max), ss[i := Stream(0, Activated)])
    ensures Count(Window(0), ss[i := Stream(0, Activated)]) == Count(Window(0), ss) - 1
  {
    hide Count, Reached;
    var mid := ss[i := Stream(0, Totalled)];
    steps' := Moves(x, steps, b, Loaded(n, max), ss, i);
    CountUpdate(Window(0), ss, i, Stream(0, Totalled));
    steps' := Moves(x, steps', b, Tunnel(Some(Metrics(n + 1, n, 0, false, max)), 0), mid, i);
    assert mid[i := Stream(0, Activated)] == ss[i := Stream(0, Activated)];
    CountUpdate(Window(0), ss, i, Stream(0, Activated));
  }

  /** One stream after the other up to `n` connections. */
  lemma {:induction false} ManyActive(x: Setting, max: int, n: nat) returns (steps: seq<Step>, ss: seq<Stream>)
    requires x.maxConn == Some(max) && (max <= 0 || n <= max) && n <= x.limit && x.k > 0
    ensures Reached(x, steps, n, Loaded(n, max), ss) && Count(Window(0), ss) == 0
  {
    hide Count, Run, AtMostInWindow;
    if n == 0 {
      Begins(x);
      CountNone(Window(0), []);
      steps, ss := [], [];
    } else {
      steps, ss := ManyActive(x, max, n - 1);
      steps := EntersWindow(x, steps, n - 1, n - 1, max, ss);
      ss := ss + [Stream(0, Passing)];
      steps := LeavesWindow(x, steps, n, n - 1, max, ss, |ss| - 1);
      ss := ss[|ss| - 1 := Stream(0, Activated)];
    }
  }

  /** Then `j` streams that all pass the check before any of them counts itself. */
  lemma {:induction false} ManyInWindow(x: Setting, max: int, j: nat)
    returns (steps: seq<Step>, ss: seq<Stream>, from: nat)
    requires x.maxConn == Some(max) && max > 0 && 0 < x.k && j <= x.k && max - 1 + j <= x.limit
    ensures Reached(x, steps, max - 1 + j, Loaded(max - 1, max), ss) && Count(Window(0), ss) == j
    ensures |ss| == from + j && forall i | from <= i < |ss| :: ss[i] == Stream(0, Passing)
  {
    hide Count, Reached;
    if j == 0 {
      steps, ss := ManyActive(x, max, max - 1);
      from := |ss|;
    } else {
      steps, ss, from := ManyInWindow(x, max, j - 1);
      steps := EntersWindow(x, steps, max - 2 + j, max - 1, max, ss);
      ss := ss + [Stream(0, Passing)];
    }
  }

  lemma {:induction false} AllLeave(x: Setting, steps: seq<Step>, b: int, n: nat, max: int, ss: seq<Stream>, from: nat)
    returns (steps': seq<Step>, ss': seq<Stream>)
    requires Reached(x, steps, b, Loaded(n, max), ss) && Count(Window(0), ss) <= x.k
    requires from <= |ss| && forall i | from <= i < |ss| :: ss[i] == Stream(0, Passing)
    ensures Reached(x, steps', b, Loaded(n + |ss| - from, max), ss')
    decreases |ss| - from
  {
    hide Count, Reached;
    if from == |ss| {
      steps', ss' := steps, ss;
    } else {
      var next := LeavesWindow(x, steps, b, n, max, ss, from);
      steps', ss' := AllLeave(x, next, b, n + 1, max, ss[from := Stream(0, Activated)], from + 1);
    }
  }

  function Min(a: int, b: int): int { if a < b then a else b }

  /** What a tunnel can reach: the bound of OvershootBounded, or the global limit if that is smaller. */
  lemma OvershootHappens(limit: int, max: int, k: nat) returns (steps: seq<Step>)
    requires limit > 0 && max > 0 && k > 0
    ensures AtMostInWindow(Start(limit, [Some(max)]), steps, 0, k)
    ensures ActiveOf(Run(Start(limit, [Some(max)]), steps)) == Min(limit, max + k - 1)
  {
    hide Count, AtMostInWindow, Run;
    var x := Setting(limit, Some(max), k);
    var ss, from;
    if limit < max {
      steps, ss := ManyActive(x, max, limit);
    } else {
      var j := Min(limit - (max - 1), k);
      steps, ss, from := ManyInWindow(x, max, j);
      steps, ss := AllLeave(x, steps, max - 1 + j, max - 1, max, ss, from);
    }
  }

  /** A tunnel without a limit takes the whole global budget, even if no two streams race. */
  lemma UnlimitedTakesAll(limit: int, max: int) returns (steps: seq<Step>)
    requires limit > 0 >= max
    ensures AtMostInWindow(Start(limit, [Some(max)]), steps, 0, 1)
    ensures ActiveOf(Run(Start(limit, [Some(max)]), steps)) == limit
  {
    hide Count, AtMostInWindow, Run;
    var ss;
    steps, ss := ManyActive(Setting(limit, Some(max), 1), max, limit);
  }

  /** And it can reach no more. */
  lemma OvershootLimited(limit: int, max: int, k: nat, steps: seq<Step>)
    requires limit > 0 && max > 0 && k > 0 && AtMostInWindow(Start(limit, [Some(max)]), steps, 0, k)
    ensures ActiveOf(Run(Start(limit, [Some(max)]), steps)) <= Min(limit, max + k - 1)
  {
    var s := Run(Start(limit, [Some(max)]), steps);
    OvershootBounded(limit, [Some(max)], steps, 0, k);
    RunKeeps(limit, [Some(max)], steps);
    ActiveWithinHeld(limit, [Some(max)], steps);
    assert ActiveSum(s, 1) == ActiveSum(s, 0) + ActiveOf(s);
  }

  /** The tunnel limit holds in all these runs. */
  ghost predicate LimitKept(limit: int, max: int, k: nat) {
    forall steps | AtMostInWindow(Start(limit, [Some(max)]), steps, 0, k) ::
      ActiveOf(Run(Start(limit, [Some(max)]), steps)) <= max
  }

  function ActiveOf(s: Sys): int {
    if s.tunnels != [] && s.tunnels[0].metrics.Some? then s.tunnels[0].metrics.value.active else 0
  }

  lemma FewerRacers(s: Sys, steps: seq<Step>, k: nat, k': nat)
    requires AtMostInWindow(s, steps, 0, k) && k <= k'
    ensures AtMostInWindow(s, steps, 0, k')
  {
  }

  /** A tunnel keeps its limit in all runs with at most `k` racing streams exactly when at most one may
      race or the global limit is no larger than the tunnel's. */
  lemma LimitKeptIff(limit: int, max: int, k: nat)
    requires limit > 0 && max > 0
    ensures LimitKept(limit, max, k) <==> k <= 1 || limit <= max
  {
    if k <= 1 || limit <= max {
      var k' := if k == 0 then 1 else k;
      forall steps | AtMostInWindow(Start(limit, [Some(max)]), steps, 0, k)
        ensures ActiveOf(Run(Start(limit, [Some(max)]), steps)) <= max {
        FewerRacers(Start(limit, [Some(max)]), steps, k, k');
        OvershootLimited(limit, max, k', steps);
      }
    } else {
      var steps := OvershootHappens(limit, max, k);
      assert ActiveOf(Run(Start(limit, [Some(max)]), steps)) > max;
    }
  }
}
