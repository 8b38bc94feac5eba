/** What every interleaving of streams guarantees: the global cap, the accounting, the tunnel overshoot. */
module StreamTheorems {
  import opened Wrappers
  import opened HealthMetrics
  import opened StreamAdmission

  lemma {:induction false} CountSplit(g: Gauge, a: Gauge, b: Gauge, ss: seq<Stream>)
    requires forall st <- ss :: One(Counts(g, st)) == One(Counts(a, st)) + One(Counts(b, st))
    ensures Count(g, ss) == Count(a, ss) + Count(b, ss)
  {
    if ss != [] {
      CountSplit(g, a, b, ss[..|ss| - 1]);
    }
  }

  /** The cap: admitted streams never exceed the limit, although the shared counter itself also
      counts the attempts between their add and their verdict. */
  lemma NeverOverLimit(limit: int, maxConns: seq<Option<int>>, steps: seq<Step>)
    requires limit > 0
    ensures var s := Run(Start(limit, maxConns), steps);
      && Count(Held, s.streams) <= limit
      && s.streamsActive == Count(Held, s.streams) + Count(Transit, s.streams)
  {
    RunKeeps(limit, maxConns, steps);
    var s := Run(Start(limit, maxConns), steps);
    CountLess(Held, Slot(limit), s.streams);
    CountSplit(Budget, Held, Transit, s.streams);
  }

  /** An attempt is admitted exactly when, at its add, held streams and undecided attempts leave a slot. */
  lemma AdmittedIffSlotFree(limit: int, maxConns: seq<Option<int>>, steps: seq<Step>, i: nat, ok: bool)
    requires limit > 0
    requires var s := Run(Start(limit, maxConns), steps); i < |s.streams| && s.streams[i].pc.Arrived?
    ensures var s := Run(Start(limit, maxConns), steps);
      var s1 := Next(s, Move(i, ok));
      var s2 := Next(s1, Move(i, ok));
      && i < |s2.streams|
      && (s2.streams[i].pc == Admitted <==> Count(Held, s.streams) + Count(Transit, s.streams) < limit)
      && (s2.streams[i].pc != Admitted ==> s2.streams[i].pc == Undoing)
  {
    hide Run;
    RunKeeps(limit, maxConns, steps);
    var s := Run(Start(limit, maxConns), steps);
    CountSplit(Budget, Held, Transit, s.streams);
    StepKeeps(s, Move(i, ok));
  }

  /** Every tunnel counter equals the streams it should count, in every reachable state. */
  lemma TunnelAccounting(limit: int, maxConns: seq<Option<int>>, steps: seq<Step>, t: nat)
    requires limit > 0 && t < |maxConns|
    ensures var s := Run(Start(limit, maxConns), steps);
      && t < |s.tunnels|
      && s.tunnels[t].alive == Count(Alive(t), s.streams)
      && (s.tunnels[t].metrics.Some? ==>
            var m := s.tunnels[t].metrics.value;
            && m.active == Count(Active(t), s.streams)
            && 0 <= s.tunnels[t].alive <= m.active <= m.total
            && m.total == Count(Total(t), s.streams)
            && m.failed == Count(Failures(t), s.streams)
            && 0 <= m.failed <= m.total)
  {
    RunKeeps(limit, maxConns, steps);
    var s := Run(Start(limit, maxConns), steps);
    assert TunnelOk(s, t);
    CountLess(Alive(t), Active(t), s.streams);
    CountLess(Active(t), Total(t), s.streams);
    CountLess(Failures(t), Total(t), s.streams);
  }

  /** The active connections of the first `n` tunnels together. */
  function ActiveSum(s: Sys, n: nat): int
    requires n <= |s.tunnels|
  {
    if n == 0 then 0
    else
      var own := if s.tunnels[n - 1].metrics.Some? then s.tunnels[n - 1].metrics.value.active else 0;
      ActiveSum(s, n - 1) + own
  }

  lemma {:induction false} ActiveSumBound(s: Sys, n: nat)
    requires Inv(s) && n <= |s.tunnels|
    ensures ActiveSum(s, n) <= Count(ActiveBelow(n), s.streams)
  {
    if n != 0 {
      ActiveSumBound(s, n - 1);
      assert TunnelOk(s, n - 1);
      CountSplit(ActiveBelow(n), ActiveBelow(n - 1), Active(n - 1), s.streams);
    }
  }

  /** Tunnel connections are a part of the global budget. */
  lemma ActiveWithinHeld(limit: int, maxConns: seq<Option<int>>, steps: seq<Step>)
    requires limit > 0
    ensures var s := Run(Start(limit, maxConns), steps);
      ActiveSum(s, |s.tunnels|) <= Count(Held, s.streams) <= limit
  {
    RunKeeps(limit, maxConns, steps);
    NeverOverLimit(limit, maxConns, steps);
    var s := Run(Start(limit, maxConns), steps);
    ActiveSumBound(s, |s.tunnels|);
    CountLess(ActiveBelow(|s.tunnels|), Held, s.streams);
  }

  /** Every exit path gives back what it took: once all streams are done, every counter is zero again. */
  lemma AllReturned(limit: int, maxConns: seq<Option<int>>, steps: seq<Step>)
    requires limit > 0
    requires forall st <- Run(Start(limit, maxConns), steps).streams :: st.pc.Done?
    ensures var s := Run(Start(limit, maxConns), steps);
      && s.streamsActive == 0
      && forall t | 0 <= t < |s.tunnels| ::
           s.tunnels[t].alive == 0 && (s.tunnels[t].metrics.Some? ==> s.tunnels[t].metrics.value.active == 0)
  {
    RunKeeps(limit, maxConns, steps);
    var s := Run(Start(limit, maxConns), steps);
    CountNone(Budget, s.streams);
    forall t | 0 <= t < |s.tunnels|
      ensures s.tunnels[t].alive == 0 && (s.tunnels[t].metrics.Some? ==> s.tunnels[t].metrics.value.active == 0) {
      assert TunnelOk(s, t);
      CountNone(Alive(t), s.streams);
      CountNone(Active(t), s.streams);
    }
  }

  /** The most steps a stream needs to be done. */
  function Remaining(pc: Pc): nat {
    match pc
    case Arrived => 12
    case Counted(_) => 11
    case Undoing => 1
    case Admitted => 10
    case Pausing => 2
    case Full => 1
    case Passing => 9
    case Totalled => 8
    case Activated => 7
    case Recorded => 6
    case BadRequest => 3
    case Failing => 2
    case Parsed => 4
    case Serving => 3
    case Unserving => 2
    case Leaving(_) => 1
    case Done(_) => 0
  }

  lemma StepAdvances(s: Sys, i: nat, a: Step)
    requires i < |s.streams| && s.streams[i].tunnel < |s.tunnels|
    ensures var s' := Next(s, a);
      && i < |s'.streams| && s'.streams[i].tunnel == s.streams[i].tunnel && |s'.tunnels| == |s.tunnels|
      && Remaining(s'.streams[i].pc) <= Remaining(s.streams[i].pc)
      && (a.Move? && a.stream == i && Remaining(s.streams[i].pc) > 0 ==>
            Remaining(s'.streams[i].pc) < Remaining(s.streams[i].pc))
  {
  }

  /** How often stream `i` is scheduled. */
  function Turns(steps: seq<Step>, i: nat): nat {
    if steps == [] then 0
    else
      var last := steps[|steps| - 1];
      Turns(steps[..|steps| - 1], i) + (if last.Move? && last.stream == i then 1 else 0)
  }

  /** No stream waits for another: whatever the others do in between, twelve turns of its own take it to its
      end, and fewer are enough from where it already stands. */
  lemma {:induction false} StreamsFinish(s: Sys, steps: seq<Step>, i: nat)
    requires i < |s.streams| && s.streams[i].tunnel < |s.tunnels|
    ensures var s' := Run(s, steps);
      && i < |s'.streams| && s'.streams[i].tunnel == s.streams[i].tunnel && |s'.tunnels| == |s.tunnels|
      && (s'.streams[i].pc.Done? || Remaining(s'.streams[i].pc) + Turns(steps, i) <= Remaining(s.streams[i].pc) <= 12)
      && (Turns(steps, i) >= Remaining(s.streams[i].pc) ==> s'.streams[i].pc.Done?)
  {
    hide Next;
    if steps != [] {
      StreamsFinish(s, steps[..|steps| - 1], i);
      StepAdvances(Run(s, steps[..|steps| - 1]), i, steps[|steps| - 1]);
    }
  }

  // ------------------------------------------------------------ the per-tunnel limit

  /** At every point of the run at most `k` streams sit between the load and the add on tunnel `t`. */
  ghost predicate AtMostInWindow(s: Sys, steps: seq<Step>, t: nat, k: nat) {
    forall n | 0 <= n <= |steps| :: Count(Window(t), Run(s, steps[..n]).streams) <= k
  }

  lemma WindowStep(s: Sys, a: Step, t: nat, max: int, k: nat)
    requires Inv(s) && t < |s.tunnels| && s.tunnels[t].metrics.Some? && s.tunnels[t].metrics.value.maxConn == max > 0
    requires Count(Window(t), s.streams) + s.tunnels[t].metrics.value.active <= max + k - 1
    requires Count(Window(t), Next(s, a).streams) <= k
    ensures var s' := Next(s, a);
      && s'.tunnels[t].metrics.Some? && s'.tunnels[t].metrics.value.maxConn == max
      && Count(Window(t), s'.streams) + s'.tunnels[t].metrics.value.active <= max + k - 1
  {
    if Enabled(s, a) {
      var s' := Next(s, a);
      match a
      case Arrive(_) => assert s'.streams[..|s.streams|] == s.streams;
      case Move(i, ok) => MoveCount(Window(t), s, i, ok);
    }
  }

  lemma {:induction false} WindowBound(limit: int, maxConns: seq<Option<int>>, steps: seq<Step>, t: nat, k: nat)
    requires limit > 0 && t < |maxConns| && maxConns[t].Some? && maxConns[t].value > 0 && k >= 1
    requires AtMostInWindow(Start(limit, maxConns), steps, t, k)
    ensures var s := Run(Start(limit, maxConns), steps);
      && t < |s.tunnels| && s.tunnels[t].metrics.Some? && s.tunnels[t].metrics.value.maxConn == maxConns[t].value
      && Count(Window(t), s.streams) + s.tunnels[t].metrics.value.active <= maxConns[t].value + k - 1
  {
    RunKeeps(limit, maxConns, steps);
    if steps != [] {
      var n := |steps| - 1;
      var s0 := Start(limit, maxConns);
      RunKeeps(limit, maxConns, steps[..n]);
      forall m | 0 <= m <= n ensures Count(Window(t), Run(s0, steps[..n][..m]).streams) <= k {
        assert steps[..n][..m] == steps[..m];
      }
      WindowBound(limit, maxConns, steps[..n], t, k);
      assert steps[..|steps|] == steps;
      WindowStep(Run(s0, steps[..n]), steps[n], t, maxConns[t].value, k);
    }
  }

  /** The check-then-add race: with at most `k` streams at once between load and add, a tunnel
      overshoots its limit by at most `k - 1`. */
  lemma OvershootBounded(limit: int, maxConns: seq<Option<int>>, steps: seq<Step>, t: nat, k: nat)
    requires limit > 0 && t < |maxConns| && maxConns[t].Some? && maxConns[t].value > 0 && k >= 1
    requires AtMostInWindow(Start(limit, maxConns), steps, t, k)
    ensures var s := Run(Start(limit, maxConns), steps);
      t < |s.tunnels| && s.tunnels[t].metrics.Some? && s.tunnels[t].metrics.value.active <= maxConns[t].value + k - 1
  {
    WindowBound(limit, maxConns, steps, t, k);
  }

  /** With non-overlapping checks the counters stay in range, so the health score is a number in [0, 1]. */
  lemma ScoreAlwaysInUnit(limit: int, maxConns: seq<Option<int>>, steps: seq<Step>, t: nat)
    requires limit > 0 && t < |maxConns| && maxConns[t].Some?
    requires maxConns[t].value > 0 ==> AtMostInWindow(Start(limit, maxConns), steps, t, 1)
    ensures var s := Run(Start(limit, maxConns), steps);
      && t < |s.tunnels| && s.tunnels[t].metrics.Some?
      && s.tunnels[t].metrics.value.InRange()
      && 0.0 <= s.tunnels[t].metrics.value.Score() <= 1.0
  {
    TunnelAccounting(limit, maxConns, steps, t);
    MetricsStay(limit, maxConns, steps, t);
    var s := Run(Start(limit, maxConns), steps);
    if maxConns[t].value > 0 {
      OvershootBounded(limit, maxConns, steps, t, 1);
    }
    ScoreInUnit(s.tunnels[t].metrics.value);
  }

  lemma {:induction false} MetricsStay(limit: int, maxConns: seq<Option<int>>, steps: seq<Step>, t: nat)
    requires limit > 0 && t < |maxConns| && maxConns[t].Some?
    ensures var s := Run(Start(limit, maxConns), steps);
      && t < |s.tunnels| && s.tunnels[t].metrics.Some? && s.tunnels[t].metrics.value.maxConn == maxConns[t].value
  {
    if steps != [] {
      MetricsStay(limit, maxConns, steps[..|steps| - 1], t);
    }
  }
}
