/** The protocol NewProxyByErrCount picks from the tunnels' error rates, for every map iteration
    order (servercontroll/proxy_release.go:208-259). */
module ErrorBasedChoice {
  import opened TunnelPool

  datatype Stats = Stats(total: int, failed: int, count: nat)

  /** The sums over the tunnels of one protocol that keep metrics. */
  function StatsOf(ts: seq<Tunnel>, proto: string): Stats {
    if ts == [] then Stats(0, 0, 0)
    else
      var s, t := StatsOf(ts[..|ts| - 1], proto), ts[|ts| - 1];
      if t.metrics.Some? && t.proto == proto
      then Stats(s.total + t.metrics.value.total, s.failed + t.metrics.value.failed, s.count + 1)
      else s
  }

  /** The keys of the statistics map: the known protocols and any other one met. */
  function Protocols(ts: seq<Tunnel>): (r: set<string>)
    ensures KNOWN <= r
  {
    if ts == [] then KNOWN
    else Protocols(ts[..|ts| - 1]) + (if ts[|ts| - 1].metrics.Some? then {ts[|ts| - 1].proto} else {})
  }

  /** Has traffic and some success: only these have a rate below 1. */
  predicate Usable(s: Stats) { s.total > 0 && s.failed < s.total }

  function Rate(s: Stats): real
    requires s.total > 0
  {
    s.failed as real / s.total as real
  }

  lemma RateBelowOne(s: Stats)
    requires s.total > 0
    ensures Rate(s) < 1.0 <==> Usable(s)
  {
    assert Rate(s) * s.total as real == s.failed as real;
  }

  /** The protocol chosen is unused if any is; otherwise it has the least error rate of the usable ones,
      or is "quic". */
  predicate IsChoice(ts: seq<Tunnel>, best: string) {
    if exists k <- Protocols(ts) :: StatsOf(ts, k).count == 0
    then best in Protocols(ts) && StatsOf(ts, best).count == 0
    else if exists k <- Protocols(ts) :: Usable(StatsOf(ts, k))
    then best in Protocols(ts) && Usable(StatsOf(ts, best)) &&
         forall k <- Protocols(ts) :: Usable(StatsOf(ts, k)) ==> Rate(StatsOf(ts, best)) <= Rate(StatsOf(ts, k))
    else best == "quic"
  }

  lemma {:induction false} Unmet(ts: seq<Tunnel>, proto: string)
    ensures proto !in Protocols(ts) ==> StatsOf(ts, proto) == Stats(0, 0, 0)
  {
    if ts != [] {
      Unmet(ts[..|ts| - 1], proto);
    }
  }

  /** Lines 210-237: one pass over the tunnels fills the map. */
  method CollectStats(ts: seq<Tunnel>) returns (m: map<string, Stats>)
    ensures m.Keys == Protocols(ts)
    ensures forall k <- m :: m[k] == StatsOf(ts, k)
  {
    m := map["tls" := Stats(0, 0, 0), "kcp" := Stats(0, 0, 0), "quic" := Stats(0, 0, 0), "ss" := Stats(0, 0, 0)];
    for i := 0 to |ts|
      invariant m.Keys == Protocols(ts[..i])
      invariant forall k <- m :: m[k] == StatsOf(ts[..i], k)
    {
      assert ts[..i + 1][..i] == ts[..i];
      Unmet(ts[..i], ts[i].proto);
      var t := ts[i];
      if t.metrics.Some? {
        var s := if t.proto in m then m[t.proto] else Stats(0, 0, 0);
        m := m[t.proto := Stats(s.total + t.metrics.value.total, s.failed + t.metrics.value.failed, s.count + 1)];
      }
    }
    assert ts[..|ts|] == ts;
  }

  /** Lines 240-253; `order` is the order in which the map is iterated. A rate over no traffic is never smaller. */
  method ChooseProtocol(ts: seq<Tunnel>, order: seq<string>) returns (bestType: string)
    requires forall k :: k in order <==> k in Protocols(ts)
    ensures IsChoice(ts, bestType)
  {
    var stats := CollectStats(ts);
    bestType := "quic";
    var lowest := 1.0;
    for i := 0 to |order|
      invariant forall j | 0 <= j < i :: StatsOf(ts, order[j]).count != 0
      invariant lowest <= 1.0
      invariant lowest == 1.0 ==> bestType == "quic" && forall j | 0 <= j < i :: !Usable(StatsOf(ts, order[j]))
      invariant lowest < 1.0 ==>
        bestType in order && Usable(StatsOf(ts, bestType)) && Rate(StatsOf(ts, bestType)) == lowest
      invariant forall j | 0 <= j < i && Usable(StatsOf(ts, order[j])) :: lowest <= Rate(StatsOf(ts, order[j]))
    {
      var ptype := order[i];
      assert ptype in order;
      var s := stats[ptype];
      if s.count == 0 {
        return ptype;
      }
      if s.total > 0 {
        RateBelowOne(s);
        var errorRate := s.failed as real / s.total as real;
        if errorRate < lowest {
          lowest, bestType := errorRate, ptype;
        }
      }
    }
    forall k | k in Protocols(ts) ensures exists j :: 0 <= j < |order| && order[j] == k {
      assert k in order;
    }
  }

  /** The statistics are sums over the tunnels of the protocol that keep metrics. */
  lemma {:induction false} StatsAddUp(a: seq<Tunnel>, b: seq<Tunnel>, k: string)
    ensures var s, x, y := StatsOf(a + b, k), StatsOf(a, k), StatsOf(b, k);
      s.total == x.total + y.total && s.failed == x.failed + y.failed && s.count == x.count + y.count
  {
    if b == [] {
      assert a + b == a;
    } else {
      assert (a + b)[..|a + b| - 1] == a + b[..|b| - 1];
      StatsAddUp(a, b[..|b| - 1], k);
    }
  }

  lemma StatsOfOne(t: Tunnel, k: string)
    ensures StatsOf([], k) == Stats(0, 0, 0)
    ensures StatsOf([t], k) == if t.metrics.Some? && t.proto == k
                               then Stats(t.metrics.value.total, t.metrics.value.failed, 1)
                               else Stats(0, 0, 0)
  {
    assert [t][..0] == [];
  }

  lemma {:induction false} ProtocolsMet(ts: seq<Tunnel>, k: string)
    ensures k in Protocols(ts) <==>
      k in {"tls", "kcp", "quic", "ss"} || exists t <- ts :: t.metrics.Some? && t.proto == k
  {
    if ts != [] {
      assert ts == ts[..|ts| - 1] + [ts[|ts| - 1]];
      ProtocolsMet(ts[..|ts| - 1], k);
    }
  }

  /** What a choice means in the counters: with every protocol in use, the chosen one has traffic, not all of
      it failed, and no other such protocol has a smaller part of failures; if there is none, it is "quic". */
  lemma ChoiceMeans(ts: seq<Tunnel>, best: string, k: string)
    requires IsChoice(ts, best) && (forall p <- Protocols(ts) :: StatsOf(ts, p).count != 0)
    requires k in Protocols(ts) && StatsOf(ts, k).total > 0 && StatsOf(ts, k).failed < StatsOf(ts, k).total
    ensures var b, o := StatsOf(ts, best), StatsOf(ts, k);
      best in Protocols(ts) && b.total > 0 && b.failed < b.total && b.failed * o.total <= o.failed * b.total
  {
    var b, o := StatsOf(ts, best), StatsOf(ts, k);
    assert Usable(o) && Rate(b) <= Rate(o);
    CrossMultiply(b, o);
  }

  lemma CrossMultiply(b: Stats, o: Stats)
    requires b.total > 0 && o.total > 0 && Rate(b) <= Rate(o)
    ensures b.failed * o.total <= o.failed * b.total
  {
    var x, y := Rate(b), Rate(o);
    var bt, ot := b.total as real, o.total as real;
    assert x * bt == b.failed as real && y * ot == o.failed as real;
    assert x * (bt * ot) <= y * (bt * ot);
    assert b.failed as real * ot == x * (bt * ot) && o.failed as real * bt == y * (bt * ot);
    assert (b.failed * o.total) as real <= (o.failed * b.total) as real;
  }

  lemma NoneUsableIsQuic(ts: seq<Tunnel>, best: string)
    requires IsChoice(ts, best) && (forall p <- Protocols(ts) :: StatsOf(ts, p).count != 0)
    requires forall p <- Protocols(ts) :: StatsOf(ts, p).total <= 0 || StatsOf(ts, p).failed >= StatsOf(ts, p).total
    ensures best == "quic"
  {
  }

  /** An unused known protocol always wins, whatever the rates of the others. */
  lemma UnusedWins(ts: seq<Tunnel>, best: string, unused: string)
    requires IsChoice(ts, best) && unused in KNOWN && forall t <- ts :: t.metrics.Some? ==> t.proto != unused
    ensures StatsOf(ts, best).count == 0
  {
    NoneCounted(ts, unused);
    assert unused in Protocols(ts);
  }

  lemma {:induction false} NoneCounted(ts: seq<Tunnel>, proto: string)
    requires forall t <- ts :: t.metrics.Some? ==> t.proto != proto
    ensures StatsOf(ts, proto).count == 0
  {
    if ts != [] {
      NoneCounted(ts[..|ts| - 1], proto);
    }
  }

  /** The choice does not depend on the iteration order beyond ties. */
  lemma ChoiceUpToTies(ts: seq<Tunnel>, a: string, b: string)
    requires IsChoice(ts, a) && IsChoice(ts, b)
    ensures StatsOf(ts, a).count == 0 <==> StatsOf(ts, b).count == 0
    ensures a == b || StatsOf(ts, a).count == 0 ||
            (Usable(StatsOf(ts, a)) && Usable(StatsOf(ts, b)) && Rate(StatsOf(ts, a)) == Rate(StatsOf(ts, b)))
  {
    assert "quic" in Protocols(ts);
  }
}
