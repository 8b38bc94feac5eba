/** The tunnel pool: scoring, selection, adding and deleting (servercontroll/proxy_release.go). */
module TunnelPool {
  import opened Wrappers
  import HM = HealthMetrics

  datatype Tunnel = Tunnel(id: string, proto: string, on: bool, metrics: Option<HM.Metrics>) {

    predicate AcceptsNewConnections() {
      metrics.None? || metrics.value.AcceptsNewConnections()
    }

    function Score(): real {
      if metrics.None? then 0.5 else metrics.value.Score()
    }

    predicate Eligible() {
      on && AcceptsNewConnections()
    }

    /** What the stream accounting keeps in every interleaving (StreamTheorems.TunnelAccounting). */
    predicate Counted() {
      metrics.Some? ==> 0 <= metrics.value.failed <= metrics.value.total && 0 <= metrics.value.active
    }
  }

  const KNOWN: set<string> := {"tls", "kcp", "quic", "ss"}

  /** The protocol NewProxy gives a tunnel it is asked for. */
  function KindOf(proto: string): (kind: string)
    ensures kind == if proto in {"tls", "kcp", "quic", "ss"} then proto else "tls"
  {
    if proto in KNOWN then proto else "tls"
  }

  // ------------------------------------------------------------ selection

  /** The loop state of selectBestTunnel. */
  datatype Best = Best(tunnel: Option<Tunnel>, score: real, proto: string)

  function Consider(b: Best, t: Tunnel): Best {
    if !t.Eligible() then b
    else
      var adjusted := t.Score() + (if t.proto != b.proto then 0.1 else 0.0);
      if adjusted > b.score then Best(Some(t), adjusted, t.proto) else b
  }

  function PickBest(ts: seq<Tunnel>): Best {
    if ts == [] then Best(None, -1.0, "") else Consider(PickBest(ts[..|ts| - 1]), ts[|ts| - 1])
  }

  /** The loop state of selectByType. */
  function PickByType(ts: seq<Tunnel>, proto: string): (Option<Tunnel>, real) {
    if ts == [] then (None, -1.0)
    else
      var (best, score) := PickByType(ts[..|ts| - 1], proto);
      var t := ts[|ts| - 1];
      if t.Eligible() && t.proto == proto && t.Score() > score then (Some(t), t.Score()) else (best, score)
  }

  /** An eligible tunnel's score is in [0, 1] in every reachable state. */
  lemma EligibleScore(t: Tunnel)
    requires t.Eligible() && t.Counted()
    ensures 0.0 <= t.Score() <= 1.0
    ensures t.Score() == if t.metrics.None? then 0.5 else t.metrics.value.Score()
  {
    if t.metrics.Some? {
      HM.ScoreInUnit(t.metrics.value);
    }
  }

  /** Switched on, and without metrics, without a limit or below its limit. */
  lemma EligibleIff(t: Tunnel)
    ensures t.Eligible() <==>
      t.on && (t.metrics.None? || t.metrics.value.maxConn <= 0 || t.metrics.value.active < t.metrics.value.maxConn)
  {
  }

  /** selectBestTunnel finds a tunnel exactly when an eligible one exists, and its own score is within
      0.1 of every eligible score, although the type bonus depends on the order of the list. */
  lemma {:induction false} BestIsNearlyBest(ts: seq<Tunnel>)
    requires forall t <- ts :: t.Counted()
    ensures var b := PickBest(ts);
      && (b.tunnel.Some? <==> exists t <- ts :: t.Eligible())
      && (b.tunnel.None? ==> b.score == -1.0)
      && (b.tunnel.Some? ==> b.tunnel.value in ts && b.tunnel.value.Eligible() && b.tunnel.value.proto == b.proto
                             && b.score - 0.1 <= b.tunnel.value.Score() <= b.score)
      && (forall t <- ts :: t.Eligible() ==> t.Score() <= b.score)
  {
    if ts != [] {
      var init, last := ts[..|ts| - 1], ts[|ts| - 1];
      assert ts == init + [last];
      BestIsNearlyBest(init);
      if last.Eligible() { EligibleScore(last); }
    }
  }

  /** A tunnel more than 0.1 better than every other eligible one is always picked, wherever it stands in the list. */
  lemma ClearWinnerIsPicked(ts: seq<Tunnel>, w: Tunnel)
    requires (forall t <- ts :: t.Counted()) && w in ts && w.Eligible()
    requires forall t <- ts :: t.Eligible() && t != w ==> t.Score() + 0.1 < w.Score()
    ensures PickBest(ts).tunnel == Some(w)
  {
    BestIsNearlyBest(ts);
    assert PickBest(ts).tunnel.value in ts;
  }

  /** The bonus does cost optimality, and all of 0.1: the tunnel met first can win over one that much better. */
  lemma BestMayLose() returns (ts: seq<Tunnel>, best: Tunnel)
    ensures (forall t <- ts :: t.Counted()) && best in ts && best.Eligible()
    ensures PickBest(ts).tunnel.Some? && best.Score() == PickBest(ts).tunnel.value.Score() + 0.1
  {
    best := Tunnel("a", "tls", true, Some(HM.Metrics(0, 0, 0, false, 10)));
    var worse := Tunnel("b", "tls", true, Some(HM.Metrics(4, 0, 1, false, 10)));
    ts := [worse, best];
    assert best.Score() == 1.0 && worse.Score() == 0.9;
    assert ts[..1] == [worse] && [worse][..0] == [];
    assert PickBest([worse]) == Best(Some(worse), 1.0, "tls");
    assert PickBest(ts) == Consider(PickBest(ts[..1]), best);
  }

  /** `ts[j]` beats every eligible tunnel of the type before it. */
  ghost predicate Leads(ts: seq<Tunnel>, proto: string, j: nat)
    requires j < |ts|
  {
    forall i | 0 <= i < j && ts[i].Eligible() && ts[i].proto == proto :: ts[i].Score() < ts[j].Score()
  }

  lemma {:induction false} BestOfType(ts: seq<Tunnel>, proto: string)
    requires forall t <- ts :: t.Counted()
    ensures var (best, score) := PickByType(ts, proto);
      && (best.Some? <==> exists t <- ts :: t.Eligible() && t.proto == proto)
      && (best.None? ==> score == -1.0)
      && (best.Some? ==>
            best.value in ts && best.value.Eligible() && best.value.proto == proto && best.value.Score() == score)
      && (forall t <- ts :: t.Eligible() && t.proto == proto ==> t.Score() <= score)
  {
    hide Tunnel.Score, Tunnel.Counted;
    if ts != [] {
      var init, last := ts[..|ts| - 1], ts[|ts| - 1];
      assert ts == init + [last];
      BestOfType(init, proto);
      if last.Eligible() { EligibleScore(last); }
    }
  }

  lemma {:induction false} FirstOfType(ts: seq<Tunnel>, proto: string)
    requires (forall t <- ts :: t.Counted()) && PickByType(ts, proto).0.Some?
    ensures exists j: nat :: j < |ts| && ts[j] == PickByType(ts, proto).0.value && Leads(ts, proto, j)
  {
    hide Tunnel.Score, Tunnel.Counted;
    var n := |ts| - 1;
    var init, best := ts[..n], PickByType(ts, proto).0.value;
    BestOfType(init, proto);
    if PickByType(ts, proto).0 == PickByType(init, proto).0 {
      FirstOfType(init, proto);
      var j: nat :| j < |init| && init[j] == best && Leads(init, proto, j);
      assert ts[j] == best && Leads(ts, proto, j);
    } else {
      assert forall i | 0 <= i < n :: ts[i] in init;
      assert ts[n] == best && Leads(ts, proto, n);
    }
  }

  /** selectByType is exactly optimal: the first of the best eligible tunnels of the type. */
  lemma ByTypeIsBest(ts: seq<Tunnel>, proto: string)
    requires forall t <- ts :: t.Counted()
    ensures var (best, score) := PickByType(ts, proto);
      && (best.Some? <==> exists t <- ts :: t.Eligible() && t.proto == proto)
      && (best.None? ==> score == -1.0)
      && (best.Some? ==>
            best.value in ts && best.value.Eligible() && best.value.proto == proto && best.value.Score() == score)
      && (forall t <- ts :: t.Eligible() && t.proto == proto ==> t.Score() <= score)
      && (best.Some? ==> exists j: nat :: j < |ts| && ts[j] == best.value && Leads(ts, proto, j))
  {
    hide PickByType, Leads, Tunnel.Score, Tunnel.Counted, Tunnel.Eligible;
    BestOfType(ts, proto);
    if PickByType(ts, proto).0.Some? {
      FirstOfType(ts, proto);
    }
  }

  // ------------------------------------------------------------ the locked sections on the list

  datatype Pool = Pool(tunnels: seq<Tunnel>, errCount: map<string, int>)

  const EMPTY_POOL := Pool([], map["tls" := 0, "kcp" := 0, "quic" := 0, "ss" := 0])

  function Named(ts: seq<Tunnel>, name: string): seq<Tunnel> {
    if ts == [] then []
    else Named(ts[..|ts| - 1], name) + (if ts[|ts| - 1].id == name then [ts[|ts| - 1]] else [])
  }

  lemma {:induction false} NamedExists(ts: seq<Tunnel>, name: string)
    ensures Named(ts, name) != [] <==> exists t <- ts :: t.id == name
  {
    if ts != [] {
      assert ts == ts[..|ts| - 1] + [ts[|ts| - 1]];
      NamedExists(ts[..|ts| - 1], name);
    }
  }

  function Others(ts: seq<Tunnel>, name: string): seq<Tunnel> {
    if ts == [] then []
    else Others(ts[..|ts| - 1], name) + (if ts[|ts| - 1].id == name then [] else [ts[|ts| - 1]])
  }

  function CountOf(ts: seq<Tunnel>, proto: string): nat {
    if ts == [] then 0 else CountOf(ts[..|ts| - 1], proto) + (if ts[|ts| - 1].proto == proto then 1 else 0)
  }

  function Add(p: Pool, t: Tunnel): Pool {
    p.(tunnels := p.tunnels + [t])
  }

  /** Every removed tunnel of a counted type raises that type's count by one. */
  function Raise(m: map<string, int>, hits: seq<Tunnel>): map<string, int> {
    if hits == [] then m
    else
      var m1, proto := Raise(m, hits[..|hits| - 1]), hits[|hits| - 1].proto;
      if proto in m1 then m1[proto := m1[proto] + 1] else m1
  }

  lemma DeleteNone(name: string, m: map<string, int>)
    ensures Named([], name) == [] && Others([], name) == [] && Raise(m, []) == m
  {
  }

  /** One more tunnel looked at in DelProxy. */
  lemma DeleteSnoc(ts: seq<Tunnel>, t: Tunnel, name: string)
    ensures Named(ts + [t], name) == if t.id == name then Named(ts, name) + [t] else Named(ts, name)
    ensures Others(ts + [t], name) == if t.id == name then Others(ts, name) else Others(ts, name) + [t]
  {
    assert (ts + [t])[..|ts|] == ts;
  }

  lemma RemovalOfOne(t: Tunnel, name: string)
    ensures Named([t], name) == if t.id == name then [t] else []
    ensures Others([t], name) == if t.id == name then [] else [t]
  {
    DeleteNone(name, map[]);
    DeleteSnoc([], t, name);
    assert [] + [t] == [t];
  }

  /** Removal looks at each tunnel by itself and keeps the order of the others. */
  lemma {:induction false} RemovalSplits(a: seq<Tunnel>, b: seq<Tunnel>, name: string)
    ensures Named(a + b, name) == Named(a, name) + Named(b, name)
    ensures Others(a + b, name) == Others(a, name) + Others(b, name)
  {
    hide Named, Others;
    if b == [] {
      DeleteNone(name, map[]);
      assert a + b == a;
    } else {
      var init, last := b[..|b| - 1], b[|b| - 1];
      assert a + b == (a + init) + [last] && b == init + [last];
      RemovalSplits(a, init, name);
      DeleteSnoc(a + init, last, name);
      DeleteSnoc(init, last, name);
    }
  }

  lemma RaiseSnoc(m: map<string, int>, hits: seq<Tunnel>, t: Tunnel)
    ensures var m1 := Raise(m, hits);
      Raise(m, hits + [t]) == if t.proto in m1 then m1[t.proto := m1[t.proto] + 1] else m1
  {
    assert (hits + [t])[..|hits|] == hits;
  }

  lemma {:induction false} RaiseCounts(m: map<string, int>, hits: seq<Tunnel>)
    ensures Raise(m, hits).Keys == m.Keys
    ensures forall proto <- m :: Raise(m, hits)[proto] == m[proto] + CountOf(hits, proto)
  {
    if hits != [] {
      RaiseCounts(m, hits[..|hits| - 1]);
    }
  }

  function Delete(p: Pool, name: string): Pool {
    Pool(Others(p.tunnels, name), Raise(p.errCount, Named(p.tunnels, name)))
  }

  class ProxyPool {
    var tunnels: seq<Tunnel>
    var errCount: map<string, int>

    function Value(): Pool
      reads this
    {
      Pool(tunnels, errCount)
    }

    constructor ()
      ensures Value() == EMPTY_POOL
    {
      tunnels, errCount := EMPTY_POOL.tunnels, EMPTY_POOL.errCount;
    }

    /** Lines 163-168. */
    method AddProxy(t: Tunnel)
      modifies this
      ensures Value() == Add(old(Value()), t)
      ensures tunnels == old(tunnels) + [t] && errCount == old(errCount)
    {
      tunnels := tunnels + [t];
    }

    /** Lines 170-197; the tunnels to tear down are returned. */
    method DelProxy(name: string) returns (found: bool, hits: seq<Tunnel>)
      modifies this
      ensures Value() == Delete(old(Value()), name)
      ensures hits == Named(old(tunnels), name)
      ensures found <==> exists t <- old(tunnels) :: t.id == name
    {
      hide Named, Others, Raise;
      DeleteNone(name, errCount);
      assert tunnels[..0] == [];
      var kept := [];
      found, hits := false, [];
      for i := 0 to |tunnels|
        invariant tunnels == old(tunnels)
        invariant kept == Others(tunnels[..i], name) && hits == Named(tunnels[..i], name)
        invariant errCount == Raise(old(errCount), hits)
        invariant found <==> hits != []
      {
        var tun := tunnels[i];
        assert tunnels[..i + 1] == tunnels[..i] + [tun];
        DeleteSnoc(tunnels[..i], tun, name);
        if tun.id == name {
          RaiseSnoc(old(errCount), hits, tun);
          if tun.proto in errCount {
            errCount := errCount[tun.proto := errCount[tun.proto] + 1];
          }
          hits := hits + [tun];
          found := true;
        } else {
          kept := kept + [tun];
        }
      }
      assert tunnels[..|tunnels|] == tunnels;
      NamedExists(tunnels, name);
      tunnels := kept;
    }

    /** Lines 67-95. */
    method FindBest() returns (best: Option<Tunnel>)
      ensures best == PickBest(tunnels).tunnel
    {
      best := None;
      var bestScore, bestType := -1.0, "";
      for i := 0 to |tunnels|
        invariant Best(best, bestScore, bestType) == PickBest(tunnels[..i])
      {
        var tunnel := tunnels[i];
        assert tunnels[..i + 1][..i] == tunnels[..i];
        if !tunnel.on {
          continue;
        }
        if !tunnel.AcceptsNewConnections() {
          continue;
        }
        var score := tunnel.Score();
        var typeBonus := 0.0;
        if tunnel.proto != bestType {
          typeBonus := 0.1;
        }
        var adjustedScore := score + typeBonus;
        if adjustedScore > bestScore {
          bestScore, best, bestType := adjustedScore, Some(tunnel), tunnel.proto;
        }
      }
      assert tunnels[..|tunnels|] == tunnels;
    }

    /** Lines 125-139. */
    method FindByType(proto: string) returns (best: Option<Tunnel>)
      ensures best == PickByType(tunnels, proto).0
    {
      best := None;
      var bestScore := -1.0;
      for i := 0 to |tunnels|
        invariant (best, bestScore) == PickByType(tunnels[..i], proto)
      {
        var tunnel := tunnels[i];
        assert tunnels[..i + 1][..i] == tunnels[..i];
        if !tunnel.on {
          continue;
        }
        if tunnel.proto == proto {
          var score := tunnel.Score();
          if tunnel.AcceptsNewConnections() && score > bestScore {
            bestScore, best := score, Some(tunnel);
          }
        }
      }
      assert tunnels[..|tunnels|] == tunnels;
    }

    /** Lines 39-161 with nothing interleaving; `id` names a tunnel that has to be created. */
    method GetProxy(proto: Option<string>, maxTunnels: nat, id: string) returns (t: Tunnel)
      requires maxTunnels > 0
      modifies this
      ensures var found :=
          if proto.Some? then PickByType(old(tunnels), proto.value).0 else PickBest(old(tunnels)).tunnel;
        if found.Some? then t == found.value && Value() == old(Value())
        else if |old(tunnels)| >= maxTunnels then t == old(tunnels)[0] && Value() == old(Value())
        else t == Tunnel(id, KindOf(proto.GetOr("quic")), false, Some(HM.Metrics(0, 0, 0, false, 1000)))
             && tunnels == old(tunnels) + [t] && errCount == old(errCount)
      ensures |old(tunnels)| <= maxTunnels ==> |tunnels| <= maxTunnels
    {
      var created := Tunnel(id, KindOf(proto.GetOr("quic")), false, Some(HM.Metrics(0, 0, 0, false, 1000)));
      if proto.None? && |tunnels| == 0 {
        AddProxy(created);
        return created;
      }
      var best;
      if proto.None? {
        best := FindBest();
      } else {
        best := FindByType(proto.value);
      }
      if best.Some? {
        return best.value;
      }
      if |tunnels| >= maxTunnels {
        return tunnels[0];
      }
      AddProxy(created);
      return created;
    }
  }
}
