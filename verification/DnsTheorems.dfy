/** What every run of the DNS cache guarantees, for any number of callers, hosts and resolver answers. */
module DnsTheorems {
  import opened DnsCache
  import opened DnsRecency
  import opened DnsLookups

  lemma RunKeeps(s: Sys, steps: seq<Step>)
    requires Inv(s)
    ensures Inv(Run(s, steps))
    decreases |steps|
  {
    if steps != [] {
      StepKeeps(s, steps[0]);
      RunKeeps(Next(s, steps[0]), steps[1..]);
    }
  }

  lemma Reachable(ttl: int, max: nat, steps: seq<Step>)
    ensures Inv(Run(Start(ttl, max), steps))
    ensures Run(Start(ttl, max), steps).cache.ttl == ttl && Run(Start(ttl, max), steps).cache.max == max
  {
    RunKeeps(Start(ttl, max), steps);
    ParametersStay(Start(ttl, max), steps);
  }

  lemma {:induction false} ParametersStay(s: Sys, steps: seq<Step>)
    ensures Run(s, steps).cache.ttl == s.cache.ttl && Run(s, steps).cache.max == s.cache.max
    decreases |steps|
  {
    if steps != [] {
      ParametersStay(Next(s, steps[0]), steps[1..]);
    }
  }

  /** Single flight: one open resolution per host, in the in-flight map exactly while one caller owns it. */
  lemma SingleFlight(ttl: int, max: nat, steps: seq<Step>)
    ensures var s := Run(Start(ttl, max), steps);
      && (forall f, g | 0 <= f < |s.flights| && 0 <= g < |s.flights| &&
                        s.flights[f].phase.Open() && s.flights[g].phase.Open() &&
                        s.flights[f].host == s.flights[g].host :: f == g)
      && (forall h :: h in s.cache.inflight <==>
                        exists f :: 0 <= f < |s.flights| && s.flights[f].host == h && s.flights[f].phase.Open())
      && (forall f, t | 0 <= f < |s.flights| && 0 <= t < |s.threads| && !s.flights[f].phase.Closed? ::
            s.threads[t].pc == Owning(f) <==> s.flights[f].owner == t)
  {
    Reachable(ttl, max, steps);
    var s := Run(Start(ttl, max), steps);
    forall f, t | 0 <= f < |s.flights| && 0 <= t < |s.threads| && !s.flights[f].phase.Closed?
      ensures s.threads[t].pc == Owning(f) <==> s.flights[f].owner == t {
      assert FlightOk(s, f) && ThreadOk(s, t);
    }
    forall f, g | 0 <= f < |s.flights| && 0 <= g < |s.flights| && s.flights[f].phase.Open() &&
                  s.flights[g].phase.Open() && s.flights[f].host == s.flights[g].host
      ensures f == g {
      assert FlightOk(s, f) && FlightOk(s, g);
    }
    forall h ensures h in s.cache.inflight <==>
                     exists f :: 0 <= f < |s.flights| && s.flights[f].host == h && s.flights[f].phase.Open() {
      if f :| 0 <= f < |s.flights| && s.flights[f].host == h && s.flights[f].phase.Open() {
        assert FlightOk(s, f);
      }
      if h in s.cache.inflight {
        var f := s.cache.inflight[h];
        assert f < |s.flights| && s.flights[f].host == h;
      }
    }
  }

  /** The steps still needed before a waiter on flight `f` can go on, if the resolver answers `ans`. */
  function Completion(p: Phase, f: nat, ans: Answer, w: nat): seq<Step> {
    match p
    case Running => [Return(f, ans), Retire(f), Close(f), Wake(w)]
    case Returned(_, _) => [Retire(f), Close(f), Wake(w)]
    case Retired(_, _, _) => [Close(f), Wake(w)]
    case Closed(_, _, _) => [Wake(w)]
  }

  lemma Unroll(s: Sys, a: Step, rest: seq<Step>)
    ensures Run(s, [a] + rest) == Run(Next(s, a), rest)
  {
    assert ([a] + rest)[1..] == rest;
  }

  /** No waiter is stranded: from every reachable state the owner's own remaining steps, and only
      those, let the waiter finish with the answer of the flight it joined. */
  lemma {:induction false} WaiterCanFinish(s: Sys, w: nat, ans: Answer)
    requires Inv(s) && w < |s.threads| && s.threads[w].pc.Waiting?
    ensures var f := s.threads[w].pc.flight;
      && f < |s.flights|
      && (!s.flights[f].phase.Closed? ==>
            s.flights[f].owner < |s.threads| && s.threads[s.flights[f].owner].pc == Owning(f))
      && var s' := Run(s, Completion(s.flights[f].phase, f, ans, w));
      && w < |s'.threads| && f < |s'.flights| && s'.flights[f].phase.Closed?
      && s'.threads[w].pc == Done(s'.flights[f].phase.ans, FromFlight(f))
      && (s.flights[f].phase.Running? ==> s'.flights[f].phase.ans == ans)
  {
    var f := s.threads[w].pc.flight;
    assert ThreadOk(s, w) && FlightOk(s, f);
    match s.flights[f].phase
    case Running =>
      Unroll(s, Return(f, ans), [Retire(f), Close(f), Wake(w)]);
      StepKeeps(s, Return(f, ans));
      WaiterCanFinish2(Next(s, Return(f, ans)), w);
    case Returned(_, _) => WaiterCanFinish2(s, w);
    case Retired(_, _, _) => WaiterCanFinish1(s, w);
    case Closed(_, _, _) => Unroll(s, Wake(w), []);
  }

  lemma {:induction false} WaiterCanFinish2(s: Sys, w: nat)
    requires Inv(s) && w < |s.threads| && s.threads[w].pc.Waiting?
    requires s.threads[w].pc.flight < |s.flights| && s.flights[s.threads[w].pc.flight].phase.Returned?
    ensures var f := s.threads[w].pc.flight;
      var s' := Run(s, [Retire(f), Close(f), Wake(w)]);
      && w < |s'.threads| && f < |s'.flights| && s'.flights[f].phase.Closed?
      && s'.threads[w].pc == Done(s'.flights[f].phase.ans, FromFlight(f))
      && s'.flights[f].phase.ans == s.flights[f].phase.ans
  {
    var f := s.threads[w].pc.flight;
    Unroll(s, Retire(f), [Close(f), Wake(w)]);
    StepKeeps(s, Retire(f));
    WaiterCanFinish1(Next(s, Retire(f)), w);
  }

  lemma {:induction false} WaiterCanFinish1(s: Sys, w: nat)
    requires Inv(s) && w < |s.threads| && s.threads[w].pc.Waiting?
    requires s.threads[w].pc.flight < |s.flights| && s.flights[s.threads[w].pc.flight].phase.Retired?
    ensures var f := s.threads[w].pc.flight;
      var s' := Run(s, [Close(f), Wake(w)]);
      && w < |s'.threads| && f < |s'.flights| && s'.flights[f].phase.Closed?
      && s'.threads[w].pc == Done(s'.flights[f].phase.ans, FromFlight(f))
      && s'.flights[f].phase.ans == s.flights[f].phase.ans
  {
    var f := s.threads[w].pc.flight;
    assert ThreadOk(s, w) && FlightOk(s, f);
    Unroll(s, Close(f), [Wake(w)]);
    Unroll(Next(s, Close(f)), Wake(w), []);
  }

  /** The caller joined `f` and still waits for it, or has returned exactly what `f` resolved to. */
  ghost predicate ServedBy(s: Sys, w: nat, f: nat) {
    && w < |s.threads| && f < |s.flights|
    && (|| s.threads[w].pc == Waiting(f)
        || (s.flights[f].phase.Closed? && s.threads[w].pc == Done(s.flights[f].phase.ans, FromFlight(f))))
  }

  lemma StepServes(s: Sys, a: Step, w: nat, f: nat)
    requires Inv(s) && ServedBy(s, w, f)
    ensures ServedBy(Next(s, a), w, f)
  {
    if Enabled(s, a) {
      match a
      case Enter(t) =>
        assert t != w;
      case Return(g, _) =>
        assert s.flights[f].phase.Closed? ==> g != f;
      case Retire(g) =>
        assert s.flights[f].phase.Closed? ==> g != f;
      case Close(g) =>
        assert FlightOk(s, g) && s.flights[g].owner != w;
      case _ =>
    }
  }

  /** Every joiner returns the result of the flight it joined, whatever runs in between. */
  lemma {:induction false} JoinerGetsItsFlight(s: Sys, steps: seq<Step>, w: nat, f: nat)
    requires Inv(s) && ServedBy(s, w, f)
    ensures ServedBy(Run(s, steps), w, f)
    decreases |steps|
  {
    if steps != [] {
      StepKeeps(s, steps[0]);
      StepServes(s, steps[0], w, f);
      JoinerGetsItsFlight(Next(s, steps[0]), steps[1..], w, f);
    }
  }

  /** Every answer a lookup returned came from a resolver call for its own host: the entry it was
      served from was stored less than `ttl` before the hit, the flight it shared was retired after
      the lookup began, and a flight it owned also returned after the lookup began. */
  lemma AnswersAreFresh(ttl: int, max: nat, steps: seq<Step>, t: nat)
    requires var s := Run(Start(ttl, max), steps); t < |s.threads| && s.threads[t].pc.Done?
    ensures var s := Run(Start(ttl, max), steps);
      var th := s.threads[t];
      match th.pc.source
      case FromEntry(stamp, hitAt) =>
        && 1 <= stamp <= |s.stored| && s.stored[stamp - 1] < |s.flights|
        && var fl := s.flights[s.stored[stamp - 1]];
        && fl.host == th.host && !fl.phase.Open() && th.pc.ans == fl.phase.ans && th.pc.ans.Cacheable()
        && th.calledAt <= hitAt && fl.phase.retiredAt <= hitAt < fl.phase.retiredAt + ttl
      case FromFlight(f) =>
        && f < |s.flights|
        && var fl := s.flights[f];
        && fl.host == th.host && fl.phase.Closed? && th.pc.ans == fl.phase.ans
        && th.calledAt <= fl.phase.retiredAt
        && (fl.phase.returnedAt < th.calledAt ==> fl.owner != t)
  {
    Reachable(ttl, max, steps);
    assert ThreadOk(Run(Start(ttl, max), steps), t);
  }

  /** The state of a caller that owns a resolution which has returned at time 0, one tick ago. */
  function ReturnedBefore(ttl: int, max: nat, h: Host, ans: Answer): Sys {
    var cache := Cache(map[], map[h := 0], 0, 0, 1, ttl, max);
    Sys(cache, [Flight(h, 0, Returned(ans, 0))], [Thread(h, 0, Owning(0))], [], 1)
  }

  lemma ReachReturnedBefore(ttl: int, max: nat, h: Host, ans: Answer)
    ensures Run(Start(ttl, max), [Call(h), Enter(0), Return(0, ans), Tick(1)]) == ReturnedBefore(ttl, max, h, ans)
  {
    var s0 := Start(ttl, max);
    var s1 := Next(s0, Call(h));
    var s2 := Next(s1, Enter(0));
    var s3 := Next(s2, Return(0, ans));
    assert Next(s3, Tick(1)) == ReturnedBefore(ttl, max, h, ans);
    Unroll(s3, Tick(1), []);
    Unroll(s2, Return(0, ans), [Tick(1)]);
    Unroll(s1, Enter(0), [Return(0, ans), Tick(1)]);
    Unroll(s0, Call(h), [Enter(0), Return(0, ans), Tick(1)]);
  }

  lemma RunAppend(s: Sys, a: seq<Step>, b: seq<Step>)
    ensures Run(s, a + b) == Run(Run(s, a), b)
    decreases |a|
  {
    if a == [] {
      assert a + b == b;
    } else {
      assert (a + b)[1..] == a[1..] + b;
      RunAppend(Next(s, a[0]), a[1..], b);
    }
  }

  /** The bound above cannot be stated for the resolver's return: a caller that arrives between the
      return and the retirement shares a resolution that ended before its lookup began. */
  lemma JoinedAnswerMayPredateTheCall(ttl: int, max: nat, h: Host, ans: Answer) returns (steps: seq<Step>)
    ensures var s := Run(Start(ttl, max), steps);
      && |s.threads| == 2 && |s.flights| == 1 && s.flights[0].phase.Closed?
      && s.threads[1].pc == Done(ans, FromFlight(0))
      && s.flights[0].phase.returnedAt < s.threads[1].calledAt
  {
    hide Run, Tracks, History, Tally;
    var first := [Call(h), Enter(0), Return(0, ans), Tick(1)];
    ReachReturnedBefore(ttl, max, h, ans);
    var s4 := ReturnedBefore(ttl, max, h, ans);
    var s5 := Next(s4, Call(h));
    var s6 := Next(s5, Enter(1));
    assert s6.threads == [Thread(h, 0, Owning(0)), Thread(h, 1, Waiting(0))];
    Reachable(ttl, max, first);
    StepKeeps(s4, Call(h));
    StepKeeps(s5, Enter(1));
    WaiterCanFinish2(s6, 1);
    var rest := [Retire(0), Close(0), Wake(1)];
    Unroll(s5, Enter(1), rest);
    Unroll(s4, Call(h), [Enter(1)] + rest);
    steps := first + ([Call(h)] + ([Enter(1)] + rest));
    RunAppend(Start(ttl, max), first, [Call(h)] + ([Enter(1)] + rest));
    FlightsOnlyProgress(s6, rest, 0, 1);
  }

  /** Call times never change, a flight keeps its return time, and flights start only in Enter. */
  lemma {:induction false} FlightsOnlyProgress(s: Sys, steps: seq<Step>, f: nat, t: nat)
    requires f < |s.flights| && t < |s.threads|
    ensures var s' := Run(s, steps);
      && f < |s'.flights| && t < |s'.threads| && s'.threads[t].calledAt == s.threads[t].calledAt
      && (!s.flights[f].phase.Running? ==>
            !s'.flights[f].phase.Running? && s'.flights[f].phase.returnedAt == s.flights[f].phase.returnedAt)
      && ((forall a <- steps :: !a.Enter? && !a.Call?) ==> |s'.flights| == |s.flights| && |s'.threads| == |s.threads|)
    decreases |steps|
  {
    if steps != [] {
      FlightsOnlyProgress(Next(s, steps[0]), steps[1..], f, t);
    }
  }

  /** A resolution that is still running returns at a later time. */
  lemma {:induction false} RunningReturnsLater(s: Sys, steps: seq<Step>, f: nat, t: nat)
    requires f < |s.flights| && t < |s.threads| && s.flights[f].phase.Running?
    ensures var s' := Run(s, steps);
      f < |s'.flights| && (s'.flights[f].phase.Running? || s.clock <= s'.flights[f].phase.returnedAt)
    decreases |steps|
  {
    if steps != [] {
      var s1 := Next(s, steps[0]);
      if s1.flights[f].phase.Running? {
        RunningReturnsLater(s1, steps[1..], f, t);
      } else {
        FlightsOnlyProgress(s1, steps[1..], f, t);
      }
    }
  }

  /** Exactly when a joiner's answer predates its call: the resolution it joined had already returned,
      at a time before the call. */
  lemma JoinedAnswerPredatesIff(s: Sys, w: nat, f: nat, steps: seq<Step>)
    requires Inv(s) && Enabled(s, Enter(w)) && Next(s, Enter(w)).threads[w].pc == Waiting(f)
    requires var s' := Run(Next(s, Enter(w)), steps); w < |s'.threads| && s'.threads[w].pc.Done?
    ensures var s' := Run(Next(s, Enter(w)), steps);
      && f < |s.flights| && f < |s'.flights| && s'.flights[f].phase.Closed?
      && s'.threads[w].pc == Done(s'.flights[f].phase.ans, FromFlight(f))
      && (s'.flights[f].phase.returnedAt < s'.threads[w].calledAt <==>
            s.flights[f].phase.Returned? && s.flights[f].phase.returnedAt < s.threads[w].calledAt)
  {
    var s1 := Next(s, Enter(w));
    var host := s.threads[w].host;
    assert host in s.cache.inflight && f == s.cache.inflight[host];
    assert s1.flights == s.flights && s.flights[f].phase.Open();
    StepKeeps(s, Enter(w));
    JoinerGetsItsFlight(s1, steps, w, f);
    FlightsOnlyProgress(s1, steps, f, w);
    if s.flights[f].phase.Running? {
      RunningReturnsLater(s1, steps, f, w);
      assert ThreadOk(s, w);
    }
  }

  /** Errors and empty answers never become entries; each entry is one resolver answer for its host with its expiry. */
  lemma EntriesAreAnswers(ttl: int, max: nat, steps: seq<Step>, h: Host)
    requires h in Run(Start(ttl, max), steps).cache.entries
    ensures var s := Run(Start(ttl, max), steps);
      var e := s.cache.entries[h];
      && |e.ips| > 0
      && exists f :: 0 <= f < |s.flights| && s.flights[f].host == h && !s.flights[f].phase.Open()
           && s.flights[f].phase.ans == Answer(e.ips, false) && e.exp == s.flights[f].phase.retiredAt + ttl
  {
    hide Tracks, History, Tally, Run;
    Reachable(ttl, max, steps);
    var s := Run(Start(ttl, max), steps);
    assert EntryOk(s, h);
    assert s.flights[s.stored[s.cache.entries[h].stamp - 1]].host == h;
  }

  /** After any run the cached hosts are exactly those with fewer than `max` different hosts stored
      since their own last store; there are at most `max` of them and their stamps differ. */
  lemma HoldsTheMostRecent(ttl: int, max: nat, steps: seq<Step>)
    ensures var s := Run(Start(ttl, max), steps);
      && (forall i | 0 <= i < |s.stored| :: s.stored[i] < |s.flights|)
      && (forall h :: h in s.cache.entries <==> Recent(History(s), max, h))
      && |s.cache.entries| <= max
      && StampsDistinct(s.cache.entries, s.cache.nextSeq)
  {
    Reachable(ttl, max, steps);
    var s := Run(Start(ttl, max), steps);
    TracksBounded(s.cache.entries, History(s), max);
    EntryStampsDiffer(s);
  }

  lemma EntryStampsDiffer(s: Sys)
    requires StoredOk(s) && forall h <- s.cache.entries :: EntryOk(s, h)
    ensures StampsDistinct(s.cache.entries, s.cache.nextSeq)
  {
    forall h, k | h in s.cache.entries && k in s.cache.entries && s.cache.entries[h].stamp == s.cache.entries[k].stamp
      ensures h == k {
      assert EntryOk(s, h) && EntryOk(s, k);
    }
    forall h | h in s.cache.entries ensures 1 <= s.cache.entries[h].stamp <= s.cache.nextSeq {
      assert EntryOk(s, h);
    }
  }

  /** Each counter by itself: hits are the lookups answered from an entry; misses are the lookups that own
      or share a resolution, finished or not. */
  lemma CountersAddUp(ttl: int, max: nat, steps: seq<Step>)
    ensures var s := Run(Start(ttl, max), steps);
      s.cache.hits == Tally(s.threads, true) && s.cache.misses == Tally(s.threads, false)
  {
    Reachable(ttl, max, steps);
  }
}
