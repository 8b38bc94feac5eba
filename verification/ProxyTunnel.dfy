/** The code a stream runs when nothing interleaves: the stream budget and HandleConnAsync as classes,
    and the proof that they do what the atomic steps of one stream do. */
module ProxyTunnel {
  import opened Wrappers
  import HM = HealthMetrics
  import opened StreamAdmission
  import ST = SocksTheorems

  /** connections/base/global_limit.go. */
  class StreamLimit {
    var limit: int
    var active: int

    constructor (limit: int)
      ensures this.limit == limit && active == 0
    {
      this.limit, active := limit, 0;
    }

    /** Add, compare, undo. Without a limit nothing is added. */
    method TryAcquireStream() returns (ok: bool)
      modifies this`active
      ensures ok <==> limit <= 0 || old(active) < limit
      ensures active == if limit > 0 && ok then old(active) + 1 else old(active)
    {
      if limit <= 0 {
        return true;
      }
      active := active + 1;
      var cur := active;
      if cur > limit {
        active := active - 1;
        return false;
      }
      return true;
    }

    method ReleaseStream()
      modifies this`active
      ensures active == old(active) - 1
    {
      active := active - 1;
    }
  }

  /** How a stream that runs alone ends. */
  function SoloOutcome(limit: int, budget: int, t: Tunnel, requestOk: bool): Outcome {
    if budget >= limit > 0 then Refused
    else if t.metrics.Some? && !t.metrics.value.AcceptsNewConnections() then Rejected
    else if requestOk then Served
    else Failed
  }

  /** What such a stream leaves behind on its tunnel. */
  function SoloTunnel(t: Tunnel, how: Outcome): Tunnel {
    match t.metrics
    case None => t
    case Some(m) =>
      match how
      case Refused => t
      case Rejected => t.(metrics := Some(m.(paused := true)))
      case Failed => t.(metrics := Some(m.(total := m.total + 1, failed := m.failed + 1, paused := false)))
      case Served => t.(metrics := Some(m.(total := m.total + 1, paused := false)))
  }

  class ProxyTunnel {
    const metrics: HM.HealthMetrics?
    var alive: int

    constructor (metrics: HM.HealthMetrics?)
      ensures this.metrics == metrics && alive == 0
    {
      this.metrics, alive := metrics, 0;
    }

    function Value(): Tunnel
      reads this, metrics
    {
      Tunnel(if metrics == null then None else Some(metrics.Value()), alive)
    }

    /** Lines 149-223; the host of the request, if it parses, is an input. Every path releases what it
        took; after the route `IndexPanic` the deferred releases still run before the panic ends the process. */
    method HandleConnAsync(budget: StreamLimit, request: Option<Bytes>) returns (how: Outcome, route: Option<ST.Route>)
      modifies this, budget, metrics
      ensures how == SoloOutcome(budget.limit, old(budget.active), old(Value()), request.Some?)
      ensures route == if how == Served then Some(ST.Dispatch(request.value)) else None
      ensures Value() == SoloTunnel(old(Value()), how)
      ensures budget.limit == old(budget.limit)
      ensures budget.active == if budget.limit > 0 then old(budget.active) else old(budget.active) - 1
    {
      var acquired := budget.TryAcquireStream();
      if !acquired {
        return Refused, None;
      }
      if metrics != null {
        var recorded := metrics.RecordConnection();
        if !recorded {
          budget.ReleaseStream();
          return Rejected, None;
        }
      }
      if request.None? {
        if metrics != null {
          metrics.RecordFailure();
        }
        if metrics != null {
          metrics.ReleaseConnection();
        }
        budget.ReleaseStream();
        return Failed, None;
      }
      alive := alive + 1;
      route := Some(ST.Dispatch(request.value));
      alive := alive - 1;
      if metrics != null {
        metrics.ReleaseConnection();
      }
      budget.ReleaseStream();
      return Served, route;
    }
  }

  // ------------------------------------------------------------ the same stream as atomic steps

  /** `n` consecutive atomic operations of stream `i`. */
  function Drive(s: Sys, i: nat, requestOk: bool, n: nat): Sys
    decreases n
  {
    if n == 0 then s else Drive(Next(s, Move(i, requestOk)), i, requestOk, n - 1)
  }

  /** The state `s` with stream `i` at `pc`, `budget` counted and its tunnel replaced. */
  function At(s: Sys, i: nat, budget: int, t: Tunnel, pc: Pc): Sys
    requires i < |s.streams| && s.streams[i].tunnel < |s.tunnels|
  {
    Sys(s.limit, budget, s.tunnels[s.streams[i].tunnel := t], s.streams[i := s.streams[i].(pc := pc)])
  }

  lemma OneMove(s: Sys, i: nat, budget: int, t: Tunnel, pc: Pc, ok: bool)
    requires i < |s.streams| && s.streams[i].tunnel < |s.tunnels|
    ensures Next(At(s, i, budget, t, pc), Move(i, ok)) ==
            At(s, i, budget + BudgetStep(pc), TunnelStep(t, pc), NextPc(s.(streamsActive := budget), t, pc, ok))
  {
    if pc.Done? {
      assert TunnelStep(t, pc) == t;
    } else {
      var s1 := At(s, i, budget, t, pc);
      var u := s.streams[i].tunnel;
      assert s1.tunnels[u := TunnelStep(t, pc)] == s.tunnels[u := TunnelStep(t, pc)];
      assert NextPc(s1, t, pc, ok) == NextPc(s.(streamsActive := budget), t, pc, ok);
      assert Next(s1, Move(i, ok)).streams == At(s, i, budget, t, NextPc(s1, t, pc, ok)).streams;
    }
  }

  /** A stream driven to its end, one local transition at a time. */
  function Track(s: Sys, budget: int, t: Tunnel, pc: Pc, ok: bool, n: nat): (int, Tunnel, Pc)
    decreases n
  {
    if n == 0 then (budget, t, pc)
    else Track(s, budget + BudgetStep(pc), TunnelStep(t, pc), NextPc(s.(streamsActive := budget), t, pc, ok), ok, n - 1)
  }

  lemma {:induction false} DriveTracks(s: Sys, i: nat, budget: int, t: Tunnel, pc: Pc, ok: bool, n: nat)
    requires i < |s.streams| && s.streams[i].tunnel < |s.tunnels|
    ensures var (b, t', pc') := Track(s, budget, t, pc, ok, n);
      Drive(At(s, i, budget, t, pc), i, ok, n) == At(s, i, b, t', pc')
    decreases n
  {
    OneMove(s, i, budget, t, pc, ok);
    if n > 0 {
      var pc' := NextPc(s.(streamsActive := budget), t, pc, ok);
      DriveTracks(s, i, budget + BudgetStep(pc), TunnelStep(t, pc), pc', ok, n - 1);
    }
  }

  lemma {:induction false} TrackDone(s: Sys, b: int, t: Tunnel, how: Outcome, ok: bool, n: nat)
    ensures Track(s, b, t, Done(how), ok, n) == (b, t, Done(how))
    decreases n
  {
    if n > 0 {
      assert TunnelStep(t, Done(how)) == t;
      TrackDone(s, b, t, how, ok, n - 1);
    }
  }

  /** One local transition, with its result named. */
  lemma Local(s: Sys, b: int, t: Tunnel, pc: Pc, ok: bool, n: nat, t': Tunnel, pc': Pc)
    requires t' == TunnelStep(t, pc) && pc' == NextPc(s.(streamsActive := b), t, pc, ok)
    ensures Track(s, b, t, pc, ok, n + 1) == Track(s, b + BudgetStep(pc), t', pc', ok, n)
  {
  }

  /** From a recorded connection on, both request outcomes release the connection and then the slot. */
  lemma TrackRecorded(s: Sys, b: int, t: Tunnel, ok: bool, n: nat)
    ensures var released := match t.metrics
      case None => t
      case Some(m) => t.(metrics := Some(m.(failed := if ok then m.failed else m.failed + 1, active := m.active - 1)));
      Track(s, b, t, Recorded, ok, n + 5) == (b - 1, released, Done(if ok then Served else Failed))
  {
    hide Track;
    if ok {
      var up := t.(alive := t.alive + 1);
      var free := TunnelStep(t, Unserving);
      Local(s, b, t, Recorded, ok, n + 4, t, Parsed);
      Local(s, b, t, Parsed, ok, n + 3, up, Serving);
      Local(s, b, up, Serving, ok, n + 2, t, Unserving);
      Local(s, b, t, Unserving, ok, n + 1, free, Leaving(Served));
      Local(s, b, free, Leaving(Served), ok, n, free, Done(Served));
      TrackDone(s, b - 1, free, Served, ok, n);
    } else {
      var marked := TunnelStep(t, BadRequest);
      var free := TunnelStep(marked, Failing);
      Local(s, b, t, Recorded, ok, n + 4, t, BadRequest);
      Local(s, b, t, BadRequest, ok, n + 3, marked, Failing);
      Local(s, b, marked, Failing, ok, n + 2, free, Leaving(Failed));
      Local(s, b, free, Leaving(Failed), ok, n + 1, free, Done(Failed));
      TrackDone(s, b - 1, free, Failed, ok, n + 1);
    }
  }

  lemma TrackAdmitted(s: Sys, b: int, t: Tunnel, ok: bool, n: nat)
    ensures var how := if CheckTunnel(t) == Pausing then Rejected else if ok then Served else Failed;
      Track(s, b, t, Admitted, ok, n + 10) == (b - 1, SoloTunnel(t, how), Done(how))
  {
    hide Track;
    Local(s, b, t, Admitted, ok, n + 9, t, CheckTunnel(t));
    match CheckTunnel(t)
    case Recorded =>
      TrackRecorded(s, b, t, ok, n + 4);
    case Pausing =>
      var paused := TunnelStep(t, Pausing);
      Local(s, b, t, Pausing, ok, n + 8, paused, Full);
      Local(s, b, paused, Full, ok, n + 7, paused, Done(Rejected));
      TrackDone(s, b - 1, paused, Rejected, ok, n + 7);
    case Passing =>
      var t1 := TunnelStep(t, Passing);
      var t2 := TunnelStep(t1, Totalled);
      var t3 := TunnelStep(t2, Activated);
      Local(s, b, t, Passing, ok, n + 8, t1, Totalled);
      Local(s, b, t1, Totalled, ok, n + 7, t2, Activated);
      Local(s, b, t2, Activated, ok, n + 6, t3, Recorded);
      TrackRecorded(s, b, t3, ok, n + 1);
  }

  /** Run alone, at most twelve atomic steps of a stream have exactly the effect HandleConnAsync states above. */
  lemma SoloRun(s: Sys, i: nat, ok: bool, n: nat)
    requires s.limit > 0 && i < |s.streams| && s.streams[i].tunnel < |s.tunnels| && s.streams[i].pc.Arrived?
    ensures var t := s.tunnels[s.streams[i].tunnel];
      var how := SoloOutcome(s.limit, s.streamsActive, t, ok);
      Drive(s, i, ok, n + 12) == At(s, i, s.streamsActive, SoloTunnel(t, how), Done(how))
  {
    hide Track, Drive;
    var b, t := s.streamsActive, s.tunnels[s.streams[i].tunnel];
    assert s == At(s, i, b, t, Arrived);
    DriveTracks(s, i, b, t, Arrived, ok, n + 12);
    Local(s, b, t, Arrived, ok, n + 11, t, Counted(b + 1));
    if b >= s.limit {
      Local(s, b + 1, t, Counted(b + 1), ok, n + 10, t, Undoing);
      Local(s, b + 1, t, Undoing, ok, n + 9, t, Done(Refused));
      TrackDone(s, b, t, Refused, ok, n + 9);
    } else {
      Local(s, b + 1, t, Counted(b + 1), ok, n + 10, t, Admitted);
      TrackAdmitted(s, b + 1, t, ok, n);
    }
  }
}
