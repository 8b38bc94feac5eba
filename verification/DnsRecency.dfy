/** Which hosts the cache holds: eviction by smallest stamp keeps exactly the most
    recently stored distinct hosts (connections/base/dnscache.go:104-133). */
module DnsRecency {
  import opened DnsCache

  /** The different hosts stored after position `i` of a history. */
  function Later(hist: seq<Host>, i: nat): set<Host> {
    set j | i < j < |hist| :: hist[j]
  }

  /** `h` was stored, and fewer than `max` different hosts were stored after it. */
  ghost predicate Recent(hist: seq<Host>, max: nat, h: Host) {
    exists i :: 0 <= i < |hist| && hist[i] == h && |Later(hist, i)| < max
  }

  ghost predicate IsLast(hist: seq<Host>, i: int, h: Host) {
    0 <= i < |hist| && hist[i] == h && forall j | i < j < |hist| :: hist[j] != h
  }

  /** The entry map agrees with the history of stores: same hosts, and each stamp names the last store of its host. */
  ghost predicate Tracks(m: map<Host, Entry>, hist: seq<Host>, max: nat) {
    && (forall h <- m :: IsLast(hist, m[h].stamp - 1, h))
    && (forall h :: h in m <==> Recent(hist, max, h))
  }

  lemma LastOf(hist: seq<Host>, i: nat) returns (k: nat)
    requires i < |hist|
    ensures i <= k && IsLast(hist, k, hist[i])
    decreases |hist| - i
  {
    if j :| i < j < |hist| && hist[j] == hist[i] {
      k := LastOf(hist, j);
    } else {
      k := i;
    }
  }

  lemma LaterShrinks(hist: seq<Host>, i: nat, k: nat)
    requires i <= k < |hist|
    ensures Later(hist, k) <= Later(hist, i) && |Later(hist, k)| <= |Later(hist, i)|
  {
    SubsetSize(Later(hist, k), Later(hist, i));
  }

  /** Once stored last at `k`, a host is recent exactly when fewer than `max` different ones follow `k`. */
  lemma RecentAtLast(hist: seq<Host>, max: nat, h: Host, k: nat)
    requires IsLast(hist, k, h)
    ensures Recent(hist, max, h) <==> |Later(hist, k)| < max
  {
    if Recent(hist, max, h) {
      var i :| 0 <= i < |hist| && hist[i] == h && |Later(hist, i)| < max;
      LaterShrinks(hist, i, k);
    }
  }

  /** For a cached host the newer entries are precisely the hosts stored later: recency is closed upwards. */
  lemma NewerIsLater(m: map<Host, Entry>, hist: seq<Host>, max: nat, h: Host)
    requires Tracks(m, hist, max) && h in m
    ensures Newer(m, h) == Later(hist, m[h].stamp - 1)
  {
    var k := m[h].stamp - 1;
    RecentAtLast(hist, max, h, k);
    forall x | x in Newer(m, h) ensures x in Later(hist, k) {
      assert hist[m[x].stamp - 1] == x;
    }
    forall x | x in Later(hist, k) ensures x in Newer(m, h) {
      var j :| k < j < |hist| && hist[j] == x;
      var l := LastOf(hist, j);
      LaterShrinks(hist, k, l);
      RecentAtLast(hist, max, x, l);
      assert x in m && IsLast(hist, m[x].stamp - 1, x);
    }
  }

  lemma LaterSnoc(hist: seq<Host>, x: Host, i: nat)
    requires i < |hist|
    ensures Later(hist + [x], i) == Later(hist, i) + {x}
  {
    var h' := hist + [x];
    assert h'[|hist|] == x;
    forall y | y in Later(hist, i) ensures y in Later(h', i) {
      var j :| i < j < |hist| && hist[j] == y;
      assert h'[j] == y;
    }
  }

  /** A store of `x` moves `x` to the front of the history. */
  lemma StoredIsRecent(m: map<Host, Entry>, hist: seq<Host>, max: nat, x: Host, e: Entry)
    requires Tracks(m, hist, max) && e.stamp == |hist| + 1
    ensures x in Newest(m[x := e], max) <==> Recent(hist + [x], max, x)
  {
    var m1, hist1 := m[x := e], hist + [x];
    assert IsLast(hist1, |hist|, x);
    RecentAtLast(hist1, max, x, |hist|);
    assert Later(hist1, |hist|) == {};
    assert Newer(m1, x) == {};
  }

  /** A cached host other than `x` stays exactly while it is among the `max` most recent. */
  lemma CachedStays(m: map<Host, Entry>, hist: seq<Host>, max: nat, x: Host, e: Entry, h: Host)
    requires Tracks(m, hist, max) && e.stamp == |hist| + 1
    requires h in m && h != x
    ensures h in Newest(m[x := e], max) <==> Recent(hist + [x], max, h)
    ensures IsLast(hist + [x], m[h].stamp - 1, h)
  {
    var k := m[h].stamp - 1;
    NewerIsLater(m, hist, max, h);
    LaterSnoc(hist, x, k);
    assert Newer(m[x := e], h) == Newer(m, h) + {x};
    assert IsLast(hist + [x], k, h);
    RecentAtLast(hist + [x], max, h, k);
  }

  /** A host that is not cached does not come back by storing another. */
  lemma EvictedStaysOut(hist: seq<Host>, max: nat, x: Host, h: Host)
    requires !Recent(hist, max, h) && h != x
    ensures !Recent(hist + [x], max, h)
  {
    if Recent(hist + [x], max, h) {
      var i :| 0 <= i < |hist + [x]| && (hist + [x])[i] == h && |Later(hist + [x], i)| < max;
      LaterSnoc(hist, x, i);
      SubsetSize(Later(hist, i), Later(hist + [x], i));
    }
  }

  /** One store of `x`: stamp, insert, evict. */
  lemma TracksStore(m: map<Host, Entry>, hist: seq<Host>, max: nat, x: Host, e: Entry)
    requires Tracks(m, hist, max) && e.stamp == |hist| + 1
    ensures Tracks(Newest(m[x := e], max), hist + [x], max)
  {
    hide Newest, Recent, IsLast;
    var r, hist1 := Newest(m[x := e], max), hist + [x];
    forall h | h in r ensures IsLast(hist1, r[h].stamp - 1, h) {
      StampIsLast(m, hist, max, x, e, h);
    }
    forall h ensures h in r <==> Recent(hist1, max, h) {
      KeptIffRecent(m, hist, max, x, e, h);
    }
  }

  lemma StampIsLast(m: map<Host, Entry>, hist: seq<Host>, max: nat, x: Host, e: Entry, h: Host)
    requires h in m && h != x ==> IsLast(hist, m[h].stamp - 1, h)
    requires e.stamp == |hist| + 1 && h in Newest(m[x := e], max)
    ensures IsLast(hist + [x], Newest(m[x := e], max)[h].stamp - 1, h)
  {
    assert Newest(m[x := e], max)[h] == m[x := e][h];
  }

  lemma KeptIffRecent(m: map<Host, Entry>, hist: seq<Host>, max: nat, x: Host, e: Entry, h: Host)
    requires Tracks(m, hist, max) && e.stamp == |hist| + 1
    ensures h in Newest(m[x := e], max) <==> Recent(hist + [x], max, h)
  {
    if h == x {
      StoredIsRecent(m, hist, max, x, e);
    } else if h in m {
      CachedStays(m, hist, max, x, e, h);
    } else {
      EvictedStaysOut(hist, max, x, h);
    }
  }

  /** The cache never holds more than `max` entries. */
  lemma TracksBounded(m: map<Host, Entry>, hist: seq<Host>, max: nat)
    requires Tracks(m, hist, max)
    ensures |m| <= max
  {
    if m != map[] {
      var h := OldestOf(m);
      NewerIsLater(m, hist, max, h);
      RecentAtLast(hist, max, h, m[h].stamp - 1);
      forall k | k in m.Keys - {h} ensures k in Newer(m, h) {
        assert hist[m[k].stamp - 1] == k && hist[m[h].stamp - 1] == h;
      }
      SubsetSize(m.Keys - {h}, Newer(m, h));
    }
  }

  lemma OldestOf(m: map<Host, Entry>) returns (h: Host)
    requires m != map[]
    ensures h in m && forall k <- m :: m[h].stamp <= m[k].stamp
    decreases |m|
  {
    h :| h in m;
    if k :| k in m && m[k].stamp < m[h].stamp {
      var rest := m - {h};
      assert rest.Keys == m.Keys - {h} && k in rest;
      var o := OldestOf(rest);
      assert rest[o].stamp <= rest[k].stamp;
      forall j | j in m ensures m[o].stamp <= m[j].stamp {
        assert j == h || j in rest;
      }
      h := o;
    }
  }
}
