/** Who holds a tunnel port: grants go to tunnels, listeners open and close, and two places release a
    tunnel's port (connections/base/base.go:227-271, connections/base/proxytunnel.go:77-84,
    servercontroll/proxy_release.go:170-206). */
module PortHolders {
  import opened PortAllocator

  /** `tcp` tells a TCP listener from a UDP one, which a TCP probe does not see. `closed` is set once the
      server was told to close or failed; `exited` and `deleted` once Server or DelProxy released the port. */
  datatype Tunnel = Tunnel(port: int, tcp: bool, listening: bool, closed: bool, exited: bool, deleted: bool) {

    /** The tunnel was granted its port and has not released it yet. */
    predicate Holds() { port != -1 && !exited && !deleted }

    predicate On(q: int, overTcp: bool) { listening && port == q && tcp == overTcp }
  }

  datatype Sys = Sys(used: set<int>, tunnels: seq<Tunnel>)

  /** `Create` makes a tunnel on the port GiveAPort returns, where `free` are the ports no other process
      uses. `Close` tells a server to close and `Stop` is its listener closing, at once or some time later.
      `Exit` is the release deferred in Server, `Delete` the one in DelProxy. */
  datatype Step =
    | Create(tcp: bool, free: int -> bool)
    | Listen(t: nat)
    | Close(t: nat)
    | Stop(t: nat)
    | Exit(t: nat)
    | Delete(t: nat)
    | Scan(found: set<int>)
  {
    predicate Releases() { Exit? || Delete? }
  }

  const START := Sys({}, [])

  predicate Busy(ts: seq<Tunnel>, q: int, overTcp: bool) {
    exists i | 0 <= i < |ts| :: ts[i].On(q, overTcp)
  }

  /** Listening on a port over TCP succeeds when neither another process nor a tunnel does. */
  function Probe(ts: seq<Tunnel>, free: int -> bool): int -> bool {
    (q: int) => free(q) && !Busy(ts, q, true)
  }

  predicate Enabled(s: Sys, a: Step) {
    match a
    case Create(_, _) => true
    case Listen(t) =>
      t < |s.tunnels| && var u := s.tunnels[t];
      u.port != -1 && !u.closed && !u.listening && !Busy(s.tunnels, u.port, u.tcp)
    case Close(t) => t < |s.tunnels|
    case Stop(t) => t < |s.tunnels| && s.tunnels[t].closed
    case Exit(t) => t < |s.tunnels| && s.tunnels[t].closed && !s.tunnels[t].listening && !s.tunnels[t].exited
    case Delete(t) => t < |s.tunnels| && s.tunnels[t].closed && !s.tunnels[t].deleted
    case Scan(_) => true
  }

  function Released(used: set<int>, port: int): set<int> {
    if port <= 0 then used else used - {port}
  }

  function Next(s: Sys, a: Step): Sys {
    if !Enabled(s, a) then s else
    match a
    case Create(tcp, free) =>
      var p := Give(s.used, Probe(s.tunnels, free));
      Sys(Marked(s.used, p), s.tunnels + [Tunnel(p, tcp, false, false, false, false)])
    case Listen(t) => s.(tunnels := s.tunnels[t := s.tunnels[t].(listening := true)])
    case Close(t) => s.(tunnels := s.tunnels[t := s.tunnels[t].(closed := true)])
    case Stop(t) => s.(tunnels := s.tunnels[t := s.tunnels[t].(listening := false)])
    case Exit(t) => Sys(Released(s.used, s.tunnels[t].port), s.tunnels[t := s.tunnels[t].(exited := true)])
    case Delete(t) => Sys(Released(s.used, s.tunnels[t].port), s.tunnels[t := s.tunnels[t].(deleted := true)])
    case Scan(found) => s.(used := s.used + found)
  }

  function Run(steps: seq<Step>): Sys {
    if steps == [] then START else Next(Run(steps[..|steps| - 1]), steps[|steps| - 1])
  }

  /** No port has two holders. */
  ghost predicate Exclusive(s: Sys) {
    forall i, j | 0 <= i < j < |s.tunnels| && s.tunnels[i].Holds() && s.tunnels[j].Holds() ::
      s.tunnels[i].port != s.tunnels[j].port
  }

  ghost predicate HeldByOther(s: Sys, t: nat)
    requires t < |s.tunnels|
  {
    exists j :: 0 <= j < |s.tunnels| && j != t && s.tunnels[j].Holds() && s.tunnels[j].port == s.tunnels[t].port
  }

  /** The step releases a port that a tunnel other than the releaser holds. */
  ghost predicate Foreign(s: Sys, a: Step) {
    Enabled(s, a) && a.Releases() && HeldByOther(s, a.t)
  }

  /** Step `n` of the run releases no port of another tunnel. */
  ghost predicate OwnAt(steps: seq<Step>, n: int)
    requires 0 <= n < |steps|
  {
    !Foreign(Run(steps[..n]), steps[n])
  }

  ghost predicate NoForeignRelease(steps: seq<Step>) {
    forall n | 0 <= n < |steps| :: OwnAt(steps, n)
  }

  ghost predicate Quiet(more: seq<Step>) {
    forall a <- more :: !a.Releases()
  }

  /** At no point of the run, and whatever is created and opened and closed next, does a port have two holders. */
  ghost predicate NeverShared(steps: seq<Step>) {
    forall n: nat, more: seq<Step> | n <= |steps| && Quiet(more) :: Exclusive(Run(steps[..n] + more))
  }

  // ------------------------------------------------------------ invariants

  /** Granted ports are in the range; a tunnel is told to close before it releases its port, and Server
      releases it only after the listener has closed. */
  ghost predicate TunnelOk(u: Tunnel) {
    (u.port == -1 || InRange(u.port)) && (u.exited || u.deleted ==> u.closed) && (u.exited ==> !u.listening)
  }

  ghost predicate TunnelsOk(s: Sys) {
    && (forall i | 0 <= i < |s.tunnels| :: TunnelOk(s.tunnels[i]))
    && (forall i, j, q | 0 <= i < |s.tunnels| && 0 <= j < |s.tunnels| &&
                         s.tunnels[i].On(q, true) && s.tunnels[j].On(q, true) :: i == j)
  }

  ghost predicate HeldMarked(s: Sys) {
    forall i | 0 <= i < |s.tunnels| && s.tunnels[i].Holds() :: s.tunnels[i].port in s.used
  }

  lemma StepKeepsTunnels(s: Sys, a: Step)
    requires TunnelsOk(s)
    ensures TunnelsOk(Next(s, a))
  {
    if a.Create? {
      GrantIsGive(s.used, Probe(s.tunnels, a.free), Give(s.used, Probe(s.tunnels, a.free)), Next(s, a).used);
    }
  }

  lemma {:induction false} RunKeepsTunnels(steps: seq<Step>)
    ensures TunnelsOk(Run(steps))
  {
    if steps != [] {
      RunKeepsTunnels(steps[..|steps| - 1]);
      StepKeepsTunnels(Run(steps[..|steps| - 1]), steps[|steps| - 1]);
    }
  }

  lemma CreateKeeps(s: Sys, tcp: bool, free: int -> bool)
    requires HeldMarked(s) && Exclusive(s)
    ensures HeldMarked(Next(s, Create(tcp, free))) && Exclusive(Next(s, Create(tcp, free)))
  {
    var probe := Probe(s.tunnels, free);
    var p := Give(s.used, probe);
    GrantIsGive(s.used, probe, p, Marked(s.used, p));
    assert p != -1 ==> p !in s.used && p in Below(p + 1);
  }

  /** Any step but the release of a port held by another tunnel keeps held ports marked and unshared. */
  lemma StepKeeps(s: Sys, a: Step)
    requires HeldMarked(s) && Exclusive(s) && !Foreign(s, a)
    ensures HeldMarked(Next(s, a)) && Exclusive(Next(s, a))
  {
    match a
    case Create(tcp, free) => CreateKeeps(s, tcp, free);
    case Listen(_) =>
    case Close(_) =>
    case Stop(_) =>
    case Exit(_) =>
    case Delete(_) =>
    case Scan(_) =>
  }

  lemma PrefixIsOwn(steps: seq<Step>, n: nat)
    requires n <= |steps| && forall m | 0 <= m < n :: OwnAt(steps, m)
    ensures NoForeignRelease(steps[..n])
  {
    forall m | 0 <= m < n ensures OwnAt(steps[..n], m) {
      assert steps[..n][..m] == steps[..m] && OwnAt(steps, m);
    }
  }

  lemma {:induction false} RunKeeps(steps: seq<Step>)
    requires NoForeignRelease(steps)
    ensures HeldMarked(Run(steps)) && Exclusive(Run(steps))
  {
    if steps != [] {
      var n := |steps| - 1;
      PrefixIsOwn(steps, n);
      RunKeeps(steps[..n]);
      assert OwnAt(steps, n);
      StepKeeps(Run(steps[..n]), steps[n]);
    }
  }

  // ------------------------------------------------------------ exclusive exactly without foreign releases

  lemma QuietStaysOwn(steps: seq<Step>, n: nat, more: seq<Step>)
    requires NoForeignRelease(steps) && n <= |steps| && Quiet(more)
    ensures NoForeignRelease(steps[..n] + more)
  {
    var all := steps[..n] + more;
    forall m | 0 <= m < |all| ensures OwnAt(all, m) {
      if m < n {
        assert all[..m] == steps[..m] && OwnAt(steps, m);
      } else {
        assert all[m] in more;
      }
    }
  }

  /** A held port that lost its mark is given away by the next grant if no tunnel listens on it over TCP. */
  lemma UnmarkedIsShared(s: Sys, j: nat)
    requires TunnelsOk(s) && j < |s.tunnels| && s.tunnels[j].Holds() && s.tunnels[j].port !in s.used
    requires !Busy(s.tunnels, s.tunnels[j].port, true)
    ensures var p := s.tunnels[j].port; !Exclusive(Next(s, Create(true, (q: int) => q == p)))
  {
    var p := s.tunnels[j].port;
    var free := (q: int) => q == p;
    var probe := Probe(s.tunnels, free);
    assert probe(p);
    assert TunnelOk(s.tunnels[j]) && Least(s.used, probe, p);
    GrantIsGive(s.used, probe, p, Marked(s.used, p));
    var s' := Next(s, Create(true, free));
    assert s'.tunnels[|s.tunnels|].Holds() && s'.tunnels[j].Holds();
  }

  /** The only tunnel listening on a port over TCP can close its listener, which changes no mark and no holder. */
  lemma ListenerStops(s: Sys, i: nat, q: int)
    requires TunnelsOk(s) && i < |s.tunnels| && s.tunnels[i].On(q, true)
    ensures var s' := Next(Next(s, Close(i)), Stop(i));
      && TunnelsOk(s') && !Busy(s'.tunnels, q, true) && s'.used == s.used && |s'.tunnels| == |s.tunnels|
      && forall j | 0 <= j < |s.tunnels| ::
           s'.tunnels[j].Holds() == s.tunnels[j].Holds() && s'.tunnels[j].port == s.tunnels[j].port
  {
    StepKeepsTunnels(s, Close(i));
    StepKeepsTunnels(Next(s, Close(i)), Stop(i));
  }

  /** So it can be given away from any state, once such a listener has closed. */
  lemma LostMark(steps: seq<Step>, j: nat)
    requires var s := Run(steps); j < |s.tunnels| && s.tunnels[j].Holds() && s.tunnels[j].port !in s.used
    ensures exists more :: Quiet(more) && !Exclusive(Run(steps + more))
  {
    hide Next, Run, Exclusive;
    var s := Run(steps);
    var p := s.tunnels[j].port;
    var create := Create(true, (q: int) => q == p);
    RunKeepsTunnels(steps);
    if i :| 0 <= i < |s.tunnels| && s.tunnels[i].On(p, true) {
      ListenerStops(s, i, p);
      UnmarkedIsShared(Next(Next(s, Close(i)), Stop(i)), j);
      RunOn(steps, Close(i));
      RunOn(steps + [Close(i)], Stop(i));
      RunOn(steps + [Close(i)] + [Stop(i)], create);
      assert steps + [Close(i)] + [Stop(i)] + [create] == steps + [Close(i), Stop(i), create];
      assert Quiet([Close(i), Stop(i), create]);
    } else {
      UnmarkedIsShared(s, j);
      RunOn(steps, create);
      assert Quiet([create]);
    }
  }

  lemma RunOn(steps: seq<Step>, a: Step)
    ensures Run(steps + [a]) == Next(Run(steps), a)
  {
    assert (steps + [a])[..|steps|] == steps;
  }

  lemma ForeignIsShared(steps: seq<Step>, n: nat)
    requires n < |steps| && Foreign(Run(steps[..n]), steps[n])
    ensures !NeverShared(steps)
  {
    hide Run, Exclusive;
    var s := Run(steps[..n]);
    assert steps[..n + 1] == steps[..n] + [steps[n]];
    RunOn(steps[..n], steps[n]);
    RunKeepsTunnels(steps[..n]);
    var t := steps[n].t;
    var j: nat :| j < |s.tunnels| && j != t && s.tunnels[j].Holds() && s.tunnels[j].port == s.tunnels[t].port;
    assert TunnelOk(s.tunnels[j]);
    LostMark(steps[..n + 1], j);
    var more :| Quiet(more) && !Exclusive(Run(steps[..n + 1] + more));
  }

  /** For every run: no port is shared, now or through later grants, exactly when no release in the run
      names a port held by a tunnel other than the releaser. */
  lemma ExclusiveIffNoForeignRelease(steps: seq<Step>)
    ensures NeverShared(steps) <==> NoForeignRelease(steps)
  {
    if NoForeignRelease(steps) {
      forall n: nat, more: seq<Step> | n <= |steps| && Quiet(more) ensures Exclusive(Run(steps[..n] + more)) {
        QuietStaysOwn(steps, n, more);
        RunKeeps(steps[..n] + more);
      }
    } else {
      var n :| 0 <= n < |steps| && !OwnAt(steps, n);
      ForeignIsShared(steps, n);
    }
  }

  /** The step, if it releases a port, is the first of its tunnel to do so. */
  predicate FirstRelease(s: Sys, a: Step) {
    Enabled(s, a) && a.Releases() ==> !s.tunnels[a.t].exited && !s.tunnels[a.t].deleted
  }

  predicate FirstAt(steps: seq<Step>, n: int)
    requires 0 <= n < |steps|
  {
    FirstRelease(Run(steps[..n]), steps[n])
  }

  ghost predicate ReleasesOnce(steps: seq<Step>) {
    forall n | 0 <= n < |steps| :: FirstAt(steps, n)
  }

  lemma FirstReleaseIsOwn(s: Sys, a: Step)
    requires Exclusive(s) && FirstRelease(s, a)
    ensures !Foreign(s, a)
  {
  }

  lemma OwnNext(steps: seq<Step>, n: nat)
    requires n < |steps| && forall m | 0 <= m < n :: OwnAt(steps, m)
    requires FirstAt(steps, n)
    ensures OwnAt(steps, n)
  {
    PrefixIsOwn(steps, n);
    RunKeeps(steps[..n]);
    FirstReleaseIsOwn(Run(steps[..n]), steps[n]);
  }

  lemma {:induction false} OwnUpTo(steps: seq<Step>, n: nat)
    requires ReleasesOnce(steps) && n <= |steps|
    ensures forall m | 0 <= m < n :: OwnAt(steps, m)
  {
    if n > 0 {
      OwnUpTo(steps, n - 1);
      OwnNext(steps, n - 1);
    }
  }

  /** Only a second release can be foreign: if every tunnel released its port once, no port would ever be shared. */
  lemma OneReleaseIsSafe(steps: seq<Step>)
    requires ReleasesOnce(steps)
    ensures NoForeignRelease(steps) && NeverShared(steps)
  {
    OwnUpTo(steps, |steps|);
    ExclusiveIffNoForeignRelease(steps);
  }

  // ------------------------------------------------------------ the double release

  /** Both releases of tunnel 0, with the grant of its port to tunnel 1 between them. */
  function DoubleRelease(free: int -> bool): seq<Step> {
    [Create(true, free), Listen(0), Close(0), Stop(0), Exit(0),
     Create(false, free), Listen(1), Delete(0), Create(true, free)]
  }

  /** The states of that run when `p` is the least free port. */
  function Trail(p: int): seq<Sys> {
    var first, second := Tunnel(p, true, false, false, false, false), Tunnel(p, false, false, false, false, false);
    var ended := Tunnel(p, true, false, true, true, false);
    var twice := ended.(deleted := true);
    [START,
     Sys(Below(p + 1), [first]),
     Sys(Below(p + 1), [first.(listening := true)]),
     Sys(Below(p + 1), [first.(listening := true, closed := true)]),
     Sys(Below(p + 1), [first.(closed := true)]),
     Sys(Below(p), [ended]),
     Sys(Below(p + 1), [ended, second]),
     Sys(Below(p + 1), [ended, second.(listening := true)]),
     Sys(Below(p), [twice, second.(listening := true)]),
     Sys(Below(p + 1), [twice, second.(listening := true), first])]
  }

  lemma {:induction false} Path(states: seq<Sys>, steps: seq<Step>, n: nat)
    requires |states| == |steps| + 1 && states[0] == START && n <= |steps|
    requires forall k | 0 <= k < |steps| :: Next(states[k], steps[k]) == states[k + 1]
    ensures Run(steps[..n]) == states[n]
  {
    if n > 0 {
      Path(states, steps, n - 1);
      assert steps[..n][..n - 1] == steps[..n - 1];
    }
  }

  /** A port no smaller one competes with is granted while no tunnel listens on it over TCP. */
  lemma CreateOn(s: Sys, tcp: bool, free: int -> bool, p: int)
    requires Least({}, free, p) && (s.used == {} || s.used == Below(p)) && !Busy(s.tunnels, p, true)
    ensures Next(s, Create(tcp, free)) == Sys(Below(p + 1), s.tunnels + [Tunnel(p, tcp, false, false, false, false)])
  {
    var probe := Probe(s.tunnels, free);
    assert Least(s.used, probe, p);
    GrantIsGive(s.used, probe, p, Marked(s.used, p));
    assert Marked(s.used, p) == Below(p + 1);
  }

  lemma TrailCreates(free: int -> bool, p: int)
    requires Least({}, free, p)
    ensures var states, steps := Trail(p), DoubleRelease(free);
      forall k | k == 0 || k == 5 || k == 8 :: Next(states[k], steps[k]) == states[k + 1]
  {
    hide Next, Below;
    var states, steps := Trail(p), DoubleRelease(free);
    CreateOn(states[0], true, free, p);
    assert states[0].tunnels + [Tunnel(p, true, false, false, false, false)] == states[1].tunnels;
    CreateOn(states[5], false, free, p);
    assert states[5].tunnels + [Tunnel(p, false, false, false, false, false)] == states[6].tunnels;
    CreateOn(states[8], true, free, p);
    assert states[8].tunnels + [Tunnel(p, true, false, false, false, false)] == states[9].tunnels;
  }

  lemma TrailReleases(free: int -> bool, p: int)
    requires InRange(p)
    ensures var states, steps := Trail(p), DoubleRelease(free);
      Next(states[4], steps[4]) == states[5] && Next(states[7], steps[7]) == states[8]
  {
    assert Below(p + 1) - {p} == Below(p);
  }

  lemma TrailListens(free: int -> bool, p: int)
    requires InRange(p)
    ensures var states, steps := Trail(p), DoubleRelease(free);
      forall k | k == 1 || k == 2 || k == 3 || k == 6 :: Next(states[k], steps[k]) == states[k + 1]
  {
  }

  lemma TrailIsRun(free: int -> bool, p: int)
    requires Least({}, free, p)
    ensures Run(DoubleRelease(free)[..7]) == Trail(p)[7] && Run(DoubleRelease(free)) == Trail(p)[9]
  {
    hide Next;
    var states, steps := Trail(p), DoubleRelease(free);
    TrailCreates(free, p);
    TrailReleases(free, p);
    TrailListens(free, p);
    Path(states, steps, 7);
    Path(states, steps, 9);
    assert steps[..9] == steps;
  }

  lemma TrailShares(p: int)
    requires InRange(p)
    ensures var before, after := Trail(p)[7], Trail(p)[9];
      && Exclusive(before) && Foreign(before, Delete(0))
      && |after.tunnels| == 3 && after.tunnels[1].listening
      && (forall i | 1 <= i < 3 :: after.tunnels[i].Holds() && after.tunnels[i].port == p)
  {
    assert Trail(p)[7].tunnels[1].Holds();
  }

  /** Whatever ports other processes leave free: Server releases the port of a tunnel that has ended, a new
      tunnel is granted the port and listens on it over UDP, DelProxy releases it once more for the first
      tunnel, and a third tunnel gets it while the second is still using it. */
  lemma DoubleReleaseSharesAPort(free: int -> bool, p: int)
    requires Least({}, free, p)
    ensures var steps := DoubleRelease(free);
      var before, after := Run(steps[..7]), Run(steps);
      && (forall i | 0 <= i < |steps| && steps[i].Releases() :: steps[i].t == 0)
      && Exclusive(before) && Foreign(before, steps[7])
      && |after.tunnels| == 3 && after.tunnels[1].listening
      && (forall i | 1 <= i < 3 :: after.tunnels[i].Holds() && after.tunnels[i].port == p)
  {
    hide Run, Next, Trail;
    TrailIsRun(free, p);
    TrailShares(p);
  }
}
