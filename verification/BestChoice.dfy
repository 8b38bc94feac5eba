/** Exactly when selectBestTunnel picks the best tunnel whatever the order of the list
    (servercontroll/proxy_release.go:62-95). */
module BestChoice {
  import opened Wrappers
  import opened TunnelPool

  /** The only eligible tunnel of its protocol. */
  ghost predicate AloneInProtocol(ts: seq<Tunnel>, w: Tunnel) {
    forall t <- ts :: t.Eligible() && t.proto == w.proto ==> t == w
  }

  /** The lead the bonus cannot make up: more than 0.1 within the protocol, 0.1 over the others. */
  predicate HasLead(t: Tunnel, w: Tunnel) {
    if t.proto == w.proto then t.Score() + 0.1 < w.Score() else t.Score() + 0.1 <= w.Score()
  }

  ghost predicate LeadsAll(ts: seq<Tunnel>, w: Tunnel) {
    forall t <- ts :: t.Eligible() && t != w ==> HasLead(t, w)
  }

  /** `w` is eligible, listed once, of a named protocol, and its score is above that of every other eligible tunnel. */
  ghost predicate IsBest(ts: seq<Tunnel>, w: Tunnel) {
    && multiset(ts)[w] == 1 && w.Eligible() && w.proto != ""
    && (forall t <- ts :: t.Counted())
    && (forall t <- ts :: t.Eligible() && t != w ==> t.Score() < w.Score())
  }

  ghost predicate PickedInEveryOrder(ts: seq<Tunnel>, w: Tunnel) {
    forall o: seq<Tunnel> | multiset(o) == multiset(ts) :: PickBest(o).tunnel == Some(w)
  }

  // ------------------------------------------------------------ the condition suffices

  lemma PickSnoc(ts: seq<Tunnel>, t: Tunnel)
    ensures PickBest(ts + [t]) == Consider(PickBest(ts), t)
  {
    assert (ts + [t])[..|ts|] == ts;
  }

  /** Until `w` is met its protocol is not the current one, so it gets the bonus nobody can match. */
  lemma {:induction false} AloneWins(ts: seq<Tunnel>, w: Tunnel)
    requires AloneInProtocol(ts, w) && w.Eligible() && w.proto != "" && w.Counted()
    requires forall t <- ts :: t.Counted() && (t.Eligible() && t != w ==> t.Score() < w.Score())
    ensures var b := PickBest(ts);
      if w in ts then b == Best(Some(w), w.Score() + 0.1, w.proto)
      else b.score < w.Score() + 0.1 && b.proto != w.proto
  {
    hide Tunnel.Score, Tunnel.Counted, Tunnel.Eligible;
    EligibleScore(w);
    if ts != [] {
      var init, last := ts[..|ts| - 1], ts[|ts| - 1];
      assert ts == init + [last];
      AloneWins(init, w);
    }
  }

  /** Until `w` is met the bonus of the current choice is worth less than the lead of `w`; after it, no bonus helps. */
  lemma {:induction false} LeadWins(ts: seq<Tunnel>, w: Tunnel)
    requires LeadsAll(ts, w) && w.Eligible() && w.Counted() && forall t <- ts :: t.Counted()
    ensures var b := PickBest(ts);
      if w in ts then b.tunnel == Some(w) && b.score >= w.Score() && b.proto == w.proto
      else b.score <= w.Score() && (b.proto == w.proto && b.tunnel.Some? ==> b.score < w.Score())
  {
    hide Tunnel.Score, Tunnel.Counted, Tunnel.Eligible;
    EligibleScore(w);
    if ts != [] {
      var init, last := ts[..|ts| - 1], ts[|ts| - 1];
      assert ts == init + [last];
      BestIsNearlyBest(init);
      LeadWins(init, w);
    }
  }

  // ------------------------------------------------------------ and is necessary

  /** A list without one of its tunnels. */
  lemma Without(ts: seq<Tunnel>, t: Tunnel) returns (rest: seq<Tunnel>)
    requires t in ts
    ensures multiset(ts) == multiset(rest) + multiset{t}
  {
    var i :| 0 <= i < |ts| && ts[i] == t;
    rest := ts[..i] + ts[i + 1..];
    assert ts == ts[..i] + [t] + ts[i + 1..];
  }

  /** Some tunnels of the list brought to its front. */
  lemma {:induction false} BringForward(ts: seq<Tunnel>, front: seq<Tunnel>) returns (rest: seq<Tunnel>)
    requires multiset(front) <= multiset(ts)
    ensures multiset(front + rest) == multiset(ts) == multiset(front) + multiset(rest)
  {
    if front == [] {
      rest := ts;
      assert front + rest == ts;
    } else {
      var init, last := front[..|front| - 1], front[|front| - 1];
      assert front == init + [last];
      var more := BringForward(ts, init);
      assert multiset(front)[last] == multiset(init)[last] + 1 <= multiset(ts)[last];
      assert last in multiset(more);
      rest := Without(more, last);
    }
  }

  /** `w`, listed once, is only at the front. */
  lemma OnlyInFront(ts: seq<Tunnel>, front: seq<Tunnel>, rest: seq<Tunnel>, w: Tunnel)
    requires multiset(ts) == multiset(front) + multiset(rest) && multiset(ts)[w] == 1 && w in front
    ensures w !in rest
  {
    assert w in multiset(front);
  }

  /** A tunnel passed over and not listed again is not picked. */
  lemma {:induction false} NotPickedLater(front: seq<Tunnel>, rest: seq<Tunnel>, w: Tunnel)
    requires PickBest(front).tunnel != Some(w) && w !in rest
    ensures PickBest(front + rest).tunnel != Some(w)
  {
    if rest == [] {
      assert front + rest == front;
    } else {
      var init, last := rest[..|rest| - 1], rest[|rest| - 1];
      NotPickedLater(front, init, w);
      assert front + rest == (front + init) + [last];
      PickSnoc(front + init, last);
    }
  }

  lemma PickOne(u: Tunnel)
    requires u.Eligible() && u.Counted() && u.proto != ""
    ensures PickBest([u]) == Best(Some(u), u.Score() + 0.1, u.proto)
  {
    EligibleScore(u);
    PickSnoc([], u);
  }

  /** A close second of the same protocol, met first, keeps its bonus against `w`. */
  lemma SecondFirst(ts: seq<Tunnel>, w: Tunnel, u: Tunnel) returns (o: seq<Tunnel>)
    requires IsBest(ts, w) && u in ts && u != w && u.Eligible() && u.proto == w.proto
    requires u.Score() + 0.1 >= w.Score()
    ensures multiset(o) == multiset(ts) && PickBest(o).tunnel != Some(w)
  {
    hide Tunnel.Score, Tunnel.Counted, Tunnel.Eligible, PickBest;
    var front := [u, w];
    assert multiset([u, w]) == multiset{u, w} && u in multiset(ts);
    var rest := BringForward(ts, front);
    OnlyInFront(ts, front, rest, w);
    o := front + rest;
    PickOne(u);
    PickSnoc([u], w);
    assert [u] + [w] == [u, w];
    NotPickedLater(front, rest, w);
  }

  /** `w` met after a tunnel of its protocol has no bonus, so one of another protocol can pass it. */
  lemma PassedByOther(w: Tunnel, u: Tunnel, t: Tunnel)
    requires w.Eligible() && u.Eligible() && u.Counted() && t.Eligible()
    requires u.proto == w.proto != "" && t.proto != w.proto
    requires u.Score() + 0.1 < w.Score() < t.Score() + 0.1
    ensures PickBest([u, w, t]).tunnel == Some(t)
  {
    hide Tunnel.Score, Tunnel.Counted, Tunnel.Eligible, PickBest;
    PickOne(u);
    PickSnoc([u], w);
    assert [u] + [w] == [u, w] && [u, w] + [t] == [u, w, t];
    PickSnoc([u, w], t);
  }

  lemma OtherLast(ts: seq<Tunnel>, w: Tunnel, u: Tunnel, t: Tunnel) returns (o: seq<Tunnel>)
    requires IsBest(ts, w) && u in ts && u != w && u.Eligible() && u.proto == w.proto
    requires u.Score() + 0.1 < w.Score()
    requires t in ts && t.Eligible() && t.proto != w.proto && t.Score() + 0.1 > w.Score()
    ensures multiset(o) == multiset(ts) && PickBest(o).tunnel != Some(w)
  {
    hide Tunnel.Score, Tunnel.Counted, Tunnel.Eligible, PickBest;
    var front := [u, w, t];
    assert multiset([u, w, t]) == multiset{u, w, t} && u in multiset(ts) && t in multiset(ts);
    var rest := BringForward(ts, front);
    OnlyInFront(ts, front, rest, w);
    o := front + rest;
    PassedByOther(w, u, t);
    NotPickedLater(front, rest, w);
  }

  lemma CloseRivalWins(ts: seq<Tunnel>, w: Tunnel)
    requires IsBest(ts, w) && !AloneInProtocol(ts, w) && !LeadsAll(ts, w)
    ensures !PickedInEveryOrder(ts, w)
  {
    hide Tunnel.Score, Tunnel.Counted, Tunnel.Eligible;
    var u :| u in ts && u.Eligible() && u.proto == w.proto && u != w;
    var t :| t in ts && t.Eligible() && t != w && !HasLead(t, w);
    var o;
    if u.Score() + 0.1 >= w.Score() {
      o := SecondFirst(ts, w, u);
    } else if t.proto == w.proto {
      o := SecondFirst(ts, w, t);
    } else {
      o := OtherLast(ts, w, u, t);
    }
  }

  /** The best tunnel is picked in every order of the list exactly when it is the only eligible one of its
      protocol, or leads by more than 0.1 within its protocol and by at least 0.1 over the others. */
  lemma BestPickedIff(ts: seq<Tunnel>, w: Tunnel)
    requires IsBest(ts, w)
    ensures PickedInEveryOrder(ts, w) <==> AloneInProtocol(ts, w) || LeadsAll(ts, w)
  {
    assert w in ts;
    if AloneInProtocol(ts, w) || LeadsAll(ts, w) {
      forall o: seq<Tunnel> | multiset(o) == multiset(ts) ensures PickBest(o).tunnel == Some(w) {
        SameTunnels(o, ts);
        if AloneInProtocol(ts, w) {
          AloneWins(o, w);
        } else {
          LeadWins(o, w);
        }
      }
    } else {
      CloseRivalWins(ts, w);
    }
  }

  lemma SameTunnels(o: seq<Tunnel>, ts: seq<Tunnel>)
    requires multiset(o) == multiset(ts)
    ensures forall t :: t in o <==> t in ts
  {
    forall t ensures t in o <==> t in ts {
      assert t in o <==> t in multiset(o);
    }
  }
}
