/** The PAC table: suffix search that writes its own answers back (connections/prodns/search_dns.go:45-74, 118-143). */
module Pac {
  import opened PacNames

  /** `h` is a name the search for `d` looks up: a dot-suffix of `d` without its trailing dots. */
  ghost predicate LooksUp(d: string, h: string) {
    exists u :: DotSuffix(u, d) && StripDots(u) == h
  }

  /** Some looked-up name is in the table. */
  ghost predicate Found(table: set<string>, d: string) {
    exists h <- table :: LooksUp(d, h)
  }

  /** What IsPac answers for an (already trimmed) name. */
  ghost predicate Answer(table: set<string>, d: string) {
    table == {} || Found(table, d)
  }

  lemma EndsAlike(u: string, d: string)
    requires DotSuffix(u, d) && (d == "" || d[|d| - 1] != '.')
    ensures StripDots(u) == u
  {
    if u != "" {
      assert u[|u| - 1] == d[|d| - |u|..][|u| - 1] == d[|d| - 1];
    }
  }

  /** For a name without trailing dots, in particular one with non-empty labels, these are just its dot-suffixes. */
  lemma LooksUpProper(d: string, h: string)
    requires d == "" || d[|d| - 1] != '.'
    ensures LooksUp(d, h) <==> DotSuffix(h, d)
  {
    forall u | DotSuffix(u, d) ensures StripDots(u) == u {
      EndsAlike(u, d);
    }
    if DotSuffix(h, d) {
      assert StripDots(h) == h;
    }
  }

  /** A dot-suffix of the stripped name becomes one of the whole name by putting the dots back. */
  lemma Longer(v: string, m: string, u: string) returns (w: string)
    requires DotSuffix(v, m) && StripDots(u) == m
    ensures DotSuffix(w, u) && StripDots(w) == StripDots(v)
  {
    StripRest(u);
    var dots := u[|m|..];
    assert u == m + dots;
    SameDotsAfter(v, m, dots);
    StripAppend(v, dots);
    w := v + dots;
  }

  /** Searching from a name that the search for `d` looks up finds nothing the search for `d` would not. */
  lemma LooksUpTransitive(d: string, m: string, h: string)
    requires LooksUp(d, m) && LooksUp(m, h)
    ensures LooksUp(d, h)
  {
    var u :| DotSuffix(u, d) && StripDots(u) == m;
    var v :| DotSuffix(v, m) && StripDots(v) == h;
    var w := Longer(v, m, u);
    DotSuffixTransitive(w, u, d);
  }

  /** The name looked up when the labels from `i` on have been joined. */
  function Candidate(d: string, i: nat): string
    requires i < |Split(d)|
  {
    StripDots(Join(Split(d)[i..]))
  }

  lemma CandidatesAreLookups(d: string, h: string)
    ensures LooksUp(d, h) <==> exists i :: 0 <= i < |Split(d)| && Candidate(d, i) == h
  {
    SplitJoins(d);
    if LooksUp(d, h) {
      var u :| DotSuffix(u, d) && StripDots(u) == h;
      var i := DotSuffixIsTail(u, d);
      assert Candidate(d, i) == h;
    }
    if i :| 0 <= i < |Split(d)| && Candidate(d, i) == h {
      TailIsDotSuffix(Split(d), i);
    }
  }

  /** The loop body computes the next candidate from the previous one. */
  lemma NextCandidate(d: string, i: nat)
    requires i < |Split(d)|
    ensures Candidate(d, i) ==
            TrimDot(Split(d)[i] + "." + (if i + 1 < |Split(d)| then Candidate(d, i + 1) else ""))
  {
    var ls := Split(d);
    SplitDotless(d);
    if i + 1 == |ls| {
      assert ls[i..] == [ls[i]];
      StripLabel(ls[i]);
    } else {
      assert ls[i..] == [ls[i]] + ls[i + 1..];
      assert ls[i..][1..] == ls[i + 1..];
      StripLonger(ls[i], Join(ls[i + 1..]));
    }
  }

  class PacTable {
    var hosts: set<string>

    constructor ()
      ensures hosts == {}
    {
      hosts := {};
    }

    /** Lines 51-69: the hosts found in a pac file are added one by one. */
    method Load(found: seq<string>)
      modifies this
      ensures hosts == old(hosts) + set h | h in found
    {
      for i := 0 to |found|
        invariant hosts == old(hosts) + set h | h in found[..i]
      {
        assert found[..i + 1] == found[..i] + [found[i]];
        hosts := hosts + {found[i]};
      }
      assert found[..|found|] == found;
    }

    /** Lines 118-143: from the last label outwards; a hit on a shorter name is remembered for the whole name. */
    method IsPac(name: string) returns (ok: bool)
      modifies this
      ensures ok <==> Answer(old(hosts), TrimDot(name))
      ensures hosts == if Found(old(hosts), TrimDot(name)) then old(hosts) + {TrimDot(name)} else old(hosts)
    {
      hide Split, TrimDot, Candidate, LooksUp;
      var ip := TrimDot(name);
      if hosts == {} {
        return true;
      }
      var fs := Split(ip);
      var dd := "";
      var i := |fs|;
      while i > 0
        invariant 0 <= i <= |fs| && hosts == old(hosts)
        invariant dd == if i < |fs| then Candidate(ip, i) else ""
        invariant forall j | i <= j < |fs| :: Candidate(ip, j) !in hosts
      {
        i := i - 1;
        NextCandidate(ip, i);
        dd := TrimDot(fs[i] + "." + dd);
        if dd in hosts {
          CandidatesAreLookups(ip, dd);
          if dd != ip {
            hosts := hosts + {ip};
          }
          return true;
        }
      }
      forall h | h in hosts ensures !LooksUp(ip, h) {
        CandidatesAreLookups(ip, h);
      }
      return false;
    }
  }
}
