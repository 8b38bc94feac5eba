/** AcceptHandle racing any number of TryClose calls (connections/protls/tlsserver.go:103-135; the same
    shape in connections/prokcp/kcpserver.go:155-187 and connections/proquic/quic_server.go:122-156). */
module CloseHandshake {

  /** The accepting goroutine. `Listening` holds a fresh listener and has not taken the lock. */
  datatype APc =
    | Idle
    | Listening
    | ClosingEarly   // saw the flag under the lock
    | Accepting      // inside the accept loop
    | ClosingLate    // accept failed, deferred close pending
    | Returned(listened: bool)

  /** A closing goroutine: before the lock, after it with or without a listener to close, done. */
  datatype TPc = Entered | Closing | NothingToClose | Finished

  /** `zeroToDel` and `published` are the fields the lock guards. `firstLock` records whether a
      TryClose locked section came before AcceptHandle's. */
  datatype Sys = Sys(a: APc, ts: seq<TPc>, zeroToDel: bool, published: bool, open: bool, firstLock: bool)

  const START := Sys(Idle, [], false, false, false, false)

  datatype Step =
    | OpenListener(ok: bool)
    | LockAccept
    | CloseAccept
    | AcceptConn
    | AcceptFails
    | TryClose
    | LockClose(t: nat)
    | CloseIt(t: nat)

  predicate Enabled(s: Sys, x: Step) {
    match x
    case OpenListener(_) => s.a.Idle?
    case LockAccept => s.a.Listening?
    case CloseAccept => s.a.ClosingEarly? || s.a.ClosingLate?
    case AcceptConn => s.a.Accepting? && s.open
    case AcceptFails => s.a.Accepting?
    case TryClose => true
    case LockClose(t) => t < |s.ts| && s.ts[t].Entered?
    case CloseIt(t) => t < |s.ts| && (s.ts[t].Closing? || s.ts[t].NothingToClose?)
  }

  function Next(s: Sys, x: Step): Sys {
    if !Enabled(s, x) then s else
    match x
    case OpenListener(ok) => if ok then s.(a := Listening, open := true) else s.(a := Returned(false))
    case LockAccept => s.(a := if s.zeroToDel then ClosingEarly else Accepting, published := true)
    case CloseAccept => s.(a := Returned(true), open := false)
    case AcceptConn => s
    case AcceptFails => s.(a := ClosingLate)
    case TryClose => s.(ts := s.ts + [Entered])
    case LockClose(t) =>
      s.(ts := s.ts[t := if s.published then Closing else NothingToClose], zeroToDel := true,
         firstLock := s.firstLock || !s.published)
    case CloseIt(t) => s.(ts := s.ts[t := Finished], open := if s.ts[t].Closing? then false else s.open)
  }

  function Run(steps: seq<Step>): Sys {
    if steps == [] then START else Next(Run(steps[..|steps| - 1]), steps[|steps| - 1])
  }

  /** AcceptHandle has finished its locked section. */
  predicate Locked(a: APc) { a.ClosingEarly? || a.Accepting? || a.ClosingLate? || a == Returned(true) }

  /** The thread whose step this is closes the listener as its next own step. */
  predicate ClosesNext(s: Sys, x: Step) {
    match x
    case CloseAccept => s.a.ClosingEarly? || s.a.ClosingLate?
    case CloseIt(t) => t < |s.ts| && s.ts[t].Closing?
    case _ => false
  }

  /** Some thread is committed to closing the listener. */
  ghost predicate Committed(s: Sys) {
    s.a.ClosingEarly? || s.a.ClosingLate? || exists t :: 0 <= t < |s.ts| && s.ts[t].Closing?
  }

  ghost predicate Inv(s: Sys) {
    && (s.published <==> Locked(s.a))
    && (s.open ==> !s.a.Idle? && !s.a.Returned?)
    && (s.a.Listening? ==> s.open)
    && ((exists t :: 0 <= t < |s.ts| && !s.ts[t].Entered?) ==> s.zeroToDel)
    && (s.firstLock ==> s.zeroToDel)
    && (s.published && s.firstLock ==> s.a.ClosingEarly? || s.a == Returned(true))
    && (s.a.ClosingEarly? ==> s.firstLock)
    && (!s.published ==> (s.firstLock <==> s.zeroToDel))
    && (s.published && s.zeroToDel && s.open ==> Committed(s))
    && (forall t | 0 <= t < |s.ts| && s.ts[t].Closing? :: s.published)
  }

  lemma StepKeeps(s: Sys, x: Step)
    requires Inv(s)
    ensures Inv(Next(s, x))
  {
    if Enabled(s, x) {
      var s' := Next(s, x);
      match x
      case TryClose =>
        assert forall t | 0 <= t < |s.ts| :: s'.ts[t] == s.ts[t];
      case LockClose(t) =>
        assert s.published ==> s'.ts[t].Closing?;
      case CloseIt(t) =>
        assert !s.ts[t].Entered?;
        if s'.open && s.published && s.zeroToDel && !s.a.ClosingEarly? && !s.a.ClosingLate? {
          var u :| 0 <= u < |s.ts| && s.ts[u].Closing?;
          assert s'.ts[u].Closing?;
        }
      case _ =>
    }
  }

  lemma {:induction false} RunKeeps(steps: seq<Step>)
    ensures Inv(Run(steps))
  {
    if steps != [] {
      RunKeeps(steps[..|steps| - 1]);
      StepKeeps(Run(steps[..|steps| - 1]), steps[|steps| - 1]);
    }
  }

  /** No listener leaks: once AcceptHandle and some TryClose have both left their locked sections, the
      listener is closed or a thread is committed to closing it; and it is closed whenever AcceptHandle has returned. */
  lemma ListenerNeverLeaks(steps: seq<Step>)
    ensures var s := Run(steps);
      && (Locked(s.a) && (exists t :: 0 <= t < |s.ts| && !s.ts[t].Entered?) ==> !s.open || Committed(s))
      && (s.a.Returned? ==> !s.open)
  {
    RunKeeps(steps);
  }

  /** The accept loop is never entered when a TryClose locked section came first. */
  lemma NoLoopAfterClose(steps: seq<Step>)
    ensures var s := Run(steps); s.firstLock ==> !s.a.Accepting? && !s.a.ClosingLate?
  {
    RunKeeps(steps);
  }

  /** Nothing can run any more: every call has returned and nothing is left to accept. */
  ghost predicate Quiet(s: Sys) {
    && (s.a.Returned? || (s.a.Accepting? && s.open))
    && forall t | 0 <= t < |s.ts| :: s.ts[t].Finished?
  }

  /** If everything has come to rest and TryClose was ever called, the listener is closed and AcceptHandle
      is not stuck in its loop. */
  lemma CloseWins(steps: seq<Step>)
    requires Quiet(Run(steps)) && |Run(steps).ts| > 0
    ensures var s := Run(steps); !s.open && s.a.Returned?
  {
    RunKeeps(steps);
    var s := Run(steps);
    assert s.ts[0].Finished?;
  }

  /** A commitment is kept: the committed thread is never blocked, its own step closes the listener, and no
      step of another thread takes the commitment back. */
  lemma CommittedCanClose(s: Sys)
    ensures Committed(s) <==> exists x :: ClosesNext(s, x)
    ensures forall x | ClosesNext(s, x) :: Enabled(s, x) && !Next(s, x).open
    ensures forall x, y | ClosesNext(s, x) && y != x :: ClosesNext(Next(s, y), x)
  {
    hide Next, Enabled;
    if s.a.ClosingEarly? || s.a.ClosingLate? {
      assert ClosesNext(s, CloseAccept);
    } else if t :| 0 <= t < |s.ts| && s.ts[t].Closing? {
      assert ClosesNext(s, CloseIt(t));
    }
    forall x | ClosesNext(s, x) ensures Enabled(s, x) && !Next(s, x).open {
      CloseStepCloses(s, x);
    }
    forall x, y | ClosesNext(s, x) && y != x ensures ClosesNext(Next(s, y), x) {
      CommitmentStays(s, x, y);
    }
  }

  lemma CloseStepCloses(s: Sys, x: Step)
    requires ClosesNext(s, x)
    ensures Enabled(s, x) && !Next(s, x).open
  {
  }

  lemma CommitmentStays(s: Sys, x: Step, y: Step)
    requires ClosesNext(s, x) && y != x
    ensures ClosesNext(Next(s, y), x)
  {
  }

  // ------------------------------------------------------------ the same code run without interleaving

  class Listener {
    var open: bool

    constructor ()
      ensures open
    {
      open := true;
    }

    method Close()
      modifies this
      ensures !open
    {
      open := false;
    }
  }

  class TlsServer {
    var zeroToDel: bool
    var listener: Listener?

    constructor ()
      ensures !zeroToDel && listener == null
    {
      zeroToDel, listener := false, null;
    }

    /** The locked section of AcceptHandle, step `LockAccept`. */
    method Publish(l: Listener) returns (closedEarly: bool)
      modifies this
      ensures closedEarly == old(zeroToDel) == zeroToDel && listener == l
      ensures (if closedEarly then ClosingEarly else Accepting)
              == Next(Sys(Listening, [], old(zeroToDel), false, true, old(zeroToDel)), LockAccept).a
    {
      closedEarly := zeroToDel;
      listener := l;
    }

    /** Lines 103-125; `conns` connections arrive before Accept fails. A null listener could not be opened. */
    method AcceptHandle(l: Listener?, conns: nat) returns (ok: bool, handled: nat)
      modifies this, l
      ensures zeroToDel == old(zeroToDel)
      ensures l == null ==> !ok && handled == 0 && listener == old(listener)
      ensures l != null ==> !l.open && listener == l && (ok <==> zeroToDel) && handled == if zeroToDel then 0 else conns
    {
      handled := 0;
      if l == null {
        return false, 0;
      }
      var closedEarly := Publish(l);
      if closedEarly {
        l.Close();
        return true, 0;
      }
      while handled < conns
        invariant handled <= conns
      {
        handled := handled + 1;
      }
      l.Close();
      return false, handled;
    }

    /** Lines 127-135. */
    method TryClose()
      modifies this, listener
      ensures zeroToDel && listener == old(listener)
      ensures listener != null ==> !listener.open
    {
      zeroToDel := true;
      if listener != null {
        listener.Close();
      }
    }
  }
}
