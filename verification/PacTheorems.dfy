/** Loads and queries of the PAC table in every interleaving, at every lock
    (connections/prodns/search_dns.go:45-143). */
module PacTheorems {
  import opened PacNames
  import opened Pac

  /** A query: before the emptiness check, with the labels from `i` on joined to `dd`, about to
      remember a hit, or answered. `name` is already trimmed. */
  datatype Pc = Begun | Looking(i: nat, dd: string) | Remembering | Answered(ok: bool)

  /** `before` is what had been loaded when the query began. */
  datatype Query = Query(name: string, before: set<string>, pc: Pc)

  datatype Sys = Sys(loaded: set<string>, table: set<string>, queries: seq<Query>)

  datatype Step = Load(host: string) | Ask(name: string) | Move(q: nat)

  const EMPTY := Sys({}, {}, [])

  function MoveOn(table: set<string>, q: Query): Pc {
    match q.pc
    case Begun => if table == {} then Answered(true) else Looking(|Split(q.name)|, "")
    case Looking(i, dd) =>
      if i == 0 || i > |Split(q.name)| then Answered(false)
      else
        var dd' := TrimDot(Split(q.name)[i - 1] + "." + dd);
        if dd' !in table then Looking(i - 1, dd')
        else if dd' != q.name then Remembering
        else Answered(true)
    case Remembering => Answered(true)
    case Answered(ok) => Answered(ok)
  }

  function Next(s: Sys, a: Step): Sys {
    match a
    case Load(h) => s.(loaded := s.loaded + {h}, table := s.table + {h})
    case Ask(n) => s.(queries := s.queries + [Query(TrimDot(n), s.loaded, Begun)])
    case Move(i) =>
      if i >= |s.queries| then s
      else
        var q := s.queries[i];
        s.(table := if q.pc.Remembering? then s.table + {q.name} else s.table,
           queries := s.queries[i := q.(pc := MoveOn(s.table, q))])
  }

  function Run(steps: seq<Step>): Sys {
    if steps == [] then EMPTY else Next(Run(steps[..|steps| - 1]), steps[|steps| - 1])
  }

  /** Every entry was loaded or is a name whose own search finds a loaded one. */
  ghost predicate TableOk(s: Sys) {
    && s.loaded <= s.table
    && (s.loaded == {} ==> s.table == {})
    && forall m <- s.table :: m in s.loaded || Found(s.loaded, m)
  }

  ghost predicate QueryOk(s: Sys, q: Query) {
    && q.before <= s.loaded
    && match q.pc
       case Begun => true
       case Looking(i, dd) =>
         && s.loaded != {}
         && i <= |Split(q.name)|
         && dd == (if i < |Split(q.name)| then Candidate(q.name, i) else "")
         && forall j | i <= j < |Split(q.name)| :: Candidate(q.name, j) !in q.before
       case Remembering => Found(s.loaded, q.name)
       case Answered(ok) =>
         if ok then q.before == {} || Found(s.loaded, q.name) else s.loaded != {} && !Found(q.before, q.name)
  }

  ghost predicate Inv(s: Sys) {
    && TableOk(s)
    && forall i | 0 <= i < |s.queries| :: QueryOk(s, s.queries[i])
  }

  /** Entries written back never add an answer: the table finds a name exactly when the loaded hosts do. */
  lemma MemoIsHarmless(s: Sys, d: string)
    requires TableOk(s)
    ensures Found(s.table, d) <==> Found(s.loaded, d)
    ensures Answer(s.table, d) <==> Answer(s.loaded, d)
  {
    if m :| m in s.table && LooksUp(d, m) {
      if m !in s.loaded {
        var h :| h in s.loaded && LooksUp(m, h);
        LooksUpTransitive(d, m, h);
      }
    }
  }

  lemma FoundGrows(a: set<string>, b: set<string>, d: string)
    requires a <= b && Found(a, d)
    ensures Found(b, d)
  {
  }

  lemma LoadKeeps(s: Sys, h: string)
    requires Inv(s)
    ensures Inv(Next(s, Load(h)))
  {
    var s' := Next(s, Load(h));
    forall m | m in s'.table && m !in s'.loaded ensures Found(s'.loaded, m) {
      FoundGrows(s.loaded, s'.loaded, m);
    }
    forall i | 0 <= i < |s'.queries| ensures QueryOk(s', s'.queries[i]) {
      var q := s.queries[i];
      assert QueryOk(s, q);
      if Found(s.loaded, q.name) { FoundGrows(s.loaded, s'.loaded, q.name); }
    }
  }

  /** Running out of labels: every looked-up name was absent at the start. */
  lemma NoLabelLeft(s: Sys, q: Query)
    requires QueryOk(s, q) && q.pc.Looking? && q.pc.i == 0
    ensures !Found(q.before, q.name)
  {
    forall h | h in q.before ensures !LooksUp(q.name, h) {
      CandidatesAreLookups(q.name, h);
    }
  }

  /** A hit in the table, loaded or remembered, means a loaded host matches. */
  lemma HitIsLoaded(s: Sys, name: string, i: nat)
    requires TableOk(s) && i < |Split(name)| && Candidate(name, i) in s.table
    ensures Found(s.loaded, name)
  {
    CandidatesAreLookups(name, Candidate(name, i));
    MemoIsHarmless(s, name);
  }

  /** One move keeps what is known about the moving query. */
  lemma MoveKeepsQuery(s: Sys, q: Query)
    requires TableOk(s) && QueryOk(s, q)
    ensures QueryOk(s, q.(pc := MoveOn(s.table, q)))
  {
    hide Split, TrimDot, Candidate, Found;
    if q.pc.Looking? {
      var i := q.pc.i;
      if i == 0 {
        NoLabelLeft(s, q);
      } else {
        NextCandidate(q.name, i - 1);
        assert TrimDot(Split(q.name)[i - 1] + "." + q.pc.dd) == Candidate(q.name, i - 1);
        if Candidate(q.name, i - 1) in s.table {
          HitIsLoaded(s, q.name, i - 1);
        }
      }
    }
  }

  lemma MoveKeeps(s: Sys, i: nat)
    requires Inv(s) && i < |s.queries|
    ensures Inv(Next(s, Move(i)))
  {
    var s', q := Next(s, Move(i)), s.queries[i];
    assert QueryOk(s, q);
    MoveKeepsQuery(s, q);
    forall j | 0 <= j < |s'.queries| ensures QueryOk(s', s'.queries[j]) {
      assert QueryOk(s, s.queries[j]);
    }
  }

  lemma {:induction false} RunKeeps(steps: seq<Step>)
    ensures Inv(Run(steps))
  {
    if steps != [] {
      var n := |steps| - 1;
      var s := Run(steps[..n]);
      RunKeeps(steps[..n]);
      match steps[n]
      case Load(h) => LoadKeeps(s, h);
      case Ask(name) =>
        var s' := Next(s, Ask(name));
        forall j | 0 <= j < |s'.queries| ensures QueryOk(s', s'.queries[j]) {
          if j < |s.queries| { assert QueryOk(s, s.queries[j]); }
        }
      case Move(i) => if i < |s.queries| { MoveKeeps(s, i); }
    }
  }

  /** Remembered entries never change an answer, in any reachable state. */
  lemma MemoNeverMatters(steps: seq<Step>, name: string)
    ensures var s := Run(steps); Answer(s.table, TrimDot(name)) <==> Answer(s.loaded, TrimDot(name))
  {
    RunKeeps(steps);
    MemoIsHarmless(Run(steps), TrimDot(name));
  }

  /** A finished query answers for what was loaded while it ran: "no" means that no host loaded before
      it began matches, "yes" means that nothing was loaded when it began or a host loaded by now matches.
      Without loads during the query this is an equivalence. */
  lemma AnswersMatchLoads(steps: seq<Step>, i: nat)
    requires i < |Run(steps).queries| && Run(steps).queries[i].pc.Answered?
    ensures var s := Run(steps);
      var q := s.queries[i];
      && q.before <= s.loaded
      && (q.pc.ok ==> q.before == {} || Found(s.loaded, q.name))
      && (!q.pc.ok ==> s.loaded != {} && !Found(q.before, q.name))
      && (q.before == s.loaded ==> (q.pc.ok <==> Answer(s.loaded, q.name)))
  {
    RunKeeps(steps);
    assert QueryOk(Run(steps), Run(steps).queries[i]);
  }
}
