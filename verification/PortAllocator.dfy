/** The tunnel port allocator (connections/base/base.go:211-271). */
module PortAllocator {

  const FIRST := 20000
  const LIMIT := 60000

  predicate InRange(q: int) { FIRST <= q < LIMIT }

  /** `p` is unmarked and passes the probe, and no smaller port of the range is and does. */
  ghost predicate Least(used: set<int>, free: int -> bool, p: int) {
    && InRange(p) && p !in used && free(p)
    && forall q | FIRST <= q < p :: q in used || !free(q)
  }

  /** The ports of the range below `end`. */
  function Below(end: int): set<int> {
    set q: int | FIRST <= q < LIMIT && InRange(q) && q < end
  }

  /** -1 or the least usable port, and everything up to it marked. */
  ghost predicate Grants(used: set<int>, free: int -> bool, port: int, used': set<int>) {
    if port == -1
    then (forall q | InRange(q) :: q in used || !free(q)) && used' == used + Below(LIMIT)
    else Least(used, free, port) && used' == used + Below(port + 1)
  }

  /** The first unmarked port from `q` on that passes the probe, or -1. */
  function FirstFree(used: set<int>, free: int -> bool, q: int): (p: int)
    requires FIRST <= q <= LIMIT
    ensures p == -1 || (q <= p && Least(used + Below(q), free, p))
    ensures p == -1 ==> forall r | q <= r < LIMIT :: r in used || !free(r)
    decreases LIMIT - q
  {
    if q == LIMIT then -1
    else if q !in used && free(q) then q
    else FirstFree(used, free, q + 1)
  }

  function Give(used: set<int>, free: int -> bool): int {
    FirstFree(used, free, FIRST)
  }

  /** The marks after a grant: everything up to the port granted, or everything. */
  function Marked(used: set<int>, port: int): set<int> {
    used + Below(if port == -1 then LIMIT else port + 1)
  }

  /** A grant is determined by the marks and the probe. */
  lemma GrantIsGive(used: set<int>, free: int -> bool, port: int, used': set<int>)
    ensures Grants(used, free, port, used') <==> port == Give(used, free) && used' == Marked(used, port)
  {
    assert Below(FIRST) == {} && used + {} == used;
  }

  class PortTable {
    var used: map<int, bool>

    constructor ()
      ensures used == map[]
    {
      used := map[];
    }

    /** Lines 227-258. The probe tries to listen on a port; refused ports are marked on the way. */
    method GiveAPort(free: int -> bool) returns (port: int)
      modifies this
      ensures Grants(old(used).Keys, free, port, used.Keys)
      ensures if port == -1 then forall q | 20000 <= q < 60000 :: q in old(used) || !free(q)
              else 20000 <= port < 60000 && port !in old(used) && free(port)
                   && forall q | 20000 <= q < port :: q in old(used) || !free(q)
      ensures forall q <- old(used) :: q in used && used[q] == old(used)[q]
    {
      port := -1;
      var startPort := FIRST;
      while startPort < LIMIT
        invariant FIRST <= startPort <= LIMIT && port == -1
        invariant used.Keys == old(used).Keys + Below(startPort)
        invariant forall q | FIRST <= q < startPort :: q in old(used) || !free(q)
        invariant forall q <- old(used) :: q in used && used[q] == old(used)[q]
      {
        if startPort !in used {
          if free(startPort) {
            port := startPort;
            break;
          }
          used := used[startPort := true];
        }
        assert Below(startPort + 1) == Below(startPort) + {startPort};
        startPort := startPort + 1;
      }
      if port != -1 {
        assert Below(port + 1) == Below(port) + {port};
        used := used[port := true];
      }
    }

    /** Lines 264-271. */
    method ReleasePort(port: int)
      modifies this
      ensures used == if port <= 0 then old(used) else old(used) - {port}
    {
      if port <= 0 {
        return;
      }
      used := used - {port};
    }

    /** Lines 211-225: every port found open by the initial scan is marked. */
    method InitUsedPort(found: seq<int>)
      modifies this
      ensures used.Keys == old(used).Keys + set q | q in found
    {
      for i := 0 to |found|
        invariant used.Keys == old(used).Keys + set q | q in found[..i]
      {
        assert found[..i + 1] == found[..i] + [found[i]];
        used := used[found[i] := true];
      }
      assert found[..|found|] == found;
    }
  }

  // ------------------------------------------------------------ traces

  /** `granted` is what a call of GiveAPort returned. */
  datatype Event = Grant(free: int -> bool, granted: int) | Release(port: int) | Scan(found: set<int>)

  /** The table goes through these states: `states[i]` before event `i`. */
  ghost predicate IsTrace(events: seq<Event>, states: seq<set<int>>) {
    && |states| == |events| + 1
    && forall i | 0 <= i < |events| :: Follows(events[i], states[i], states[i + 1])
  }

  ghost predicate Follows(e: Event, used: set<int>, used': set<int>) {
    match e
    case Grant(free, p) => Grants(used, free, p, used')
    case Release(p) => used' == if p <= 0 then used else used - {p}
    case Scan(found) => used' == used + found
  }

  /** A grant stays marked as long as no release names its port. */
  lemma {:induction false} MarkedUntilReleased(events: seq<Event>, states: seq<set<int>>, i: nat, j: nat)
    requires IsTrace(events, states) && i < j <= |events|
    requires events[i].Grant? && events[i].granted != -1
    requires forall k | i < k < j && events[k].Release? :: events[k].port != events[i].granted
    ensures events[i].granted in states[j]
  {
    assert Follows(events[j - 1], states[j - 1], states[j]);
    if i < j - 1 {
      MarkedUntilReleased(events, states, i, j - 1);
    }
  }

  /** Two grants of one port always have a release of that port between them. */
  lemma ReleaseBetweenGrants(events: seq<Event>, states: seq<set<int>>, i: nat, j: nat)
    requires IsTrace(events, states) && i < j < |events|
    requires events[i].Grant? && events[j].Grant? && events[i].granted == events[j].granted != -1
    ensures exists k :: i < k < j && events[k].Release? && events[k].port == events[i].granted
  {
    assert Follows(events[j], states[j], states[j + 1]);
    if forall k | i < k < j && events[k].Release? :: events[k].port != events[i].granted {
      MarkedUntilReleased(events, states, i, j);
    }
  }

  /** Ports come back: with nothing else marked below it, a released port is the next one granted. */
  lemma ReleasedPortIsReused(used: set<int>, free: int -> bool, p: int, next: int, used': set<int>)
    requires InRange(p) && free(p) && Below(p) <= used
    requires Grants(used - {p}, free, next, used')
    ensures next == p
  {
    assert forall q | FIRST <= q < p :: q in Below(p);
  }
}
