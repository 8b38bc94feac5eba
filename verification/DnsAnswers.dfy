/** Which lookups are served from the cache, and that the cache keeps every usable answer
    (connections/base/dnscache.go:82-116). */
module DnsAnswers {
  import opened DnsCache
  import opened DnsRecency
  import opened DnsLookups
  import opened DnsTheorems

  // ------------------------------------------------------------ every usable answer is stored

  /** The stored flights are precisely the retired ones that resolved without error to some address, each
      once, in the order of their retirement. */
  ghost predicate StoredExactly(s: Sys) {
    && (forall i | 0 <= i < |s.stored| :: s.stored[i] < |s.flights| && !s.flights[s.stored[i]].phase.Open())
    && (forall f: nat | f < |s.flights| && !s.flights[f].phase.Open() ::
          f in s.stored <==> !s.flights[f].phase.ans.failed && s.flights[f].phase.ans.ips != [])
    && (forall i, j | 0 <= i < j < |s.stored| ::
          && s.stored[i] != s.stored[j]
          && s.flights[s.stored[i]].phase.retiredAt <= s.flights[s.stored[j]].phase.retiredAt)
  }

  lemma RetireStores(s: Sys, f: nat)
    requires Inv(s) && StoredExactly(s) && Enabled(s, Retire(f))
    ensures StoredExactly(Next(s, Retire(f)))
  {
    hide Tracks, History, Tally, FinishLookup, EntryOk;
    var s' := Next(s, Retire(f));
    assert f !in s.stored;
    forall i | 0 <= i < |s.stored| ensures s.flights[s.stored[i]].phase.retiredAt <= s.clock {
      assert FlightOk(s, s.stored[i]);
    }
    assert s.stored <= s'.stored;
    assert forall g: nat :: g in s'.stored <==> g in s.stored || (s.flights[f].phase.ans.Cacheable() && g == f);
  }

  lemma StepStores(s: Sys, a: Step)
    requires Inv(s) && StoredExactly(s)
    ensures StoredExactly(Next(s, a))
  {
    hide Tracks, History, Tally, EnterLookup, FinishLookup, EntryOk, ThreadOk;
    if a.Retire? && Enabled(s, a) {
      RetireStores(s, a.flight);
    } else {
      assert Next(s, a).stored == s.stored;
    }
  }

  lemma {:induction false} RunStores(s: Sys, steps: seq<Step>)
    requires Inv(s) && StoredExactly(s)
    ensures Inv(Run(s, steps)) && StoredExactly(Run(s, steps))
    decreases |steps|
  {
    hide Inv, StoredExactly, Next;
    if steps != [] {
      StepKeeps(s, steps[0]);
      StepStores(s, steps[0]);
      RunStores(Next(s, steps[0]), steps[1..]);
    }
  }

  /** In every run the stores that recency is about are the usable answers, no more and no fewer. */
  lemma UsableAnswersAreStored(ttl: int, max: nat, steps: seq<Step>)
    ensures StoredExactly(Run(Start(ttl, max), steps))
  {
    RunStores(Start(ttl, max), steps);
  }

  // ------------------------------------------------------------ who is served, who joins, who resolves

  /** Store `i` is the last one of the host, fewer than `max` other hosts were stored since, and it was less
      than `ttl` ago. */
  ghost predicate FreshStore(s: Sys, h: Host, i: nat) {
    && i < |s.stored| && s.stored[i] < |s.flights| && !s.flights[s.stored[i]].phase.Open()
    && (forall j | 0 <= j < |s.stored| :: s.stored[j] < |s.flights|)
    && IsLast(History(s), i, h) && |Later(History(s), i)| < s.cache.max
    && s.clock < s.flights[s.stored[i]].phase.retiredAt + s.cache.ttl
  }

  /** A lookup that enters is answered at once exactly when its host has an unexpired entry. */
  lemma HitIffUnexpired(s: Sys, t: nat)
    requires Inv(s) && Enabled(s, Enter(t))
    ensures var h, s' := s.threads[t].host, Next(s, Enter(t));
      s'.threads[t].pc.Done? <==> h in s.cache.entries && s.clock < s.cache.entries[h].exp
  {
    hide Inv;
  }

  /** The unexpired entries are the recent stores. */
  lemma UnexpiredIffServed(s: Sys, h: Host)
    requires Inv(s)
    ensures h in s.cache.entries && s.clock < s.cache.entries[h].exp <==> exists i: nat :: FreshStore(s, h, i)
    ensures h in s.cache.entries && s.clock < s.cache.entries[h].exp ==>
      var i := s.cache.entries[h].stamp - 1;
      i >= 0 && FreshStore(s, h, i) && s.cache.entries[h].ips == s.flights[s.stored[i]].phase.ans.ips
  {
    hide Recent, Later, FlightOk, ThreadOk, InflightOk, Tally;
    if h in s.cache.entries {
      assert EntryOk(s, h);
      var k := s.cache.entries[h].stamp - 1;
      assert IsLast(History(s), k, h);
      RecentAtLast(History(s), s.cache.max, h, k);
      assert s.clock < s.cache.entries[h].exp ==> FreshStore(s, h, k);
    }
    if i: nat :| FreshStore(s, h, i) {
      RecentAtLast(History(s), s.cache.max, h, i);
      assert h in s.cache.entries;
      assert EntryOk(s, h);
      var k := s.cache.entries[h].stamp - 1;
      assert IsLast(History(s), k, h) && IsLast(History(s), i, h);
      assert i == k;
      assert s.cache.entries[h].exp == s.flights[s.stored[i]].phase.retiredAt + s.cache.ttl;
    }
  }

  /** `f` is an open resolution of the host. */
  predicate OpenFor(s: Sys, h: Host, f: nat) {
    f < |s.flights| && s.flights[f].host == h && s.flights[f].phase.Open()
  }

  /** What becomes of a lookup that enters, in every state with the invariant, hence in every reachable one:
      it is answered at once, with those addresses, exactly when a recent store of its host is younger than
      `ttl`; otherwise it shares the open resolution of its host if there is one, and else starts its own. */
  lemma EnteringLookup(s: Sys, t: nat)
    requires Inv(s) && Enabled(s, Enter(t))
    ensures var h, pc := s.threads[t].host, Next(s, Enter(t)).threads[t].pc;
      && (pc.Done? <==> exists i: nat :: FreshStore(s, h, i))
      && (forall i: nat | pc.Done? && FreshStore(s, h, i) ::
            pc.ans == Answer(s.flights[s.stored[i]].phase.ans.ips, false))
      && (pc.Waiting? <==> !pc.Done? && exists f: nat :: OpenFor(s, h, f))
      && (forall f: nat | pc.Waiting? && OpenFor(s, h, f) :: pc == Waiting(f))
      && (pc.Owning? <==> !pc.Done? && !pc.Waiting?)
  {
    hide Tracks, Tally, EntryOk, ThreadOk, StoredOk, FreshStore;
    var h := s.threads[t].host;
    HitIffUnexpired(s, t);
    UnexpiredIffServed(s, h);
    forall i: nat, j: nat | FreshStore(s, h, i) && FreshStore(s, h, j) ensures i == j {
      OneLast(s, h, i, j);
    }
    forall f: nat | OpenFor(s, h, f)
      ensures h in s.cache.inflight && s.cache.inflight[h] == f {
      assert FlightOk(s, f);
    }
    assert h in s.cache.inflight ==> OpenFor(s, h, s.cache.inflight[h]);
  }

  lemma OneLast(s: Sys, h: Host, i: nat, j: nat)
    requires FreshStore(s, h, i) && FreshStore(s, h, j)
    ensures i == j
  {
  }
}
