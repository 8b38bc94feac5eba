/** Dotted names: splitting into labels, joining a tail of them, dot-suffixes. */
module PacNames {

  /** strings.TrimSuffix(s, "."). */
  function TrimDot(s: string): (r: string)
    ensures r == s || s == r + "."
    ensures r == s <==> s == "" || s[|s| - 1] != '.'
  {
    if |s| > 0 && s[|s| - 1] == '.' then s[..|s| - 1] else s
  }

  /** Without all its trailing dots. */
  function StripDots(s: string): (r: string)
    ensures |r| > 0 ==> r[|r| - 1] != '.'
    ensures r <= s
  {
    if |s| > 0 && s[|s| - 1] == '.' then StripDots(s[..|s| - 1]) else s
  }

  /** `h` is `d` or what follows one of its dots. */
  predicate DotSuffix(h: string, d: string) {
    |h| <= |d| && d[|d| - |h|..] == h && (|h| == |d| || d[|d| - |h| - 1] == '.')
  }

  function FirstDot(s: string): (i: nat)
    ensures i <= |s| && forall j | 0 <= j < i :: s[j] != '.'
    ensures i < |s| ==> s[i] == '.'
  {
    if s == "" || s[0] == '.' then 0
    else
      var i := FirstDot(s[1..]);
      assert forall j | 0 < j < 1 + i :: s[j] == s[1..][j - 1];
      1 + i
  }

  /** strings.Split(s, "."). */
  function Split(s: string): (ls: seq<string>)
    ensures |ls| > 0
    decreases |s|
  {
    var k := FirstDot(s);
    if k == |s| then [s] else [s[..k]] + Split(s[k + 1..])
  }

  function Join(ls: seq<string>): string
    requires |ls| > 0
  {
    if |ls| == 1 then ls[0] else ls[0] + "." + Join(ls[1..])
  }

  predicate Dotless(s: string) { forall i | 0 <= i < |s| :: s[i] != '.' }

  lemma JoinCons(head: string, rest: seq<string>)
    requires |rest| > 0
    ensures Join([head] + rest) == head + "." + Join(rest)
  {
    assert ([head] + rest)[1..] == rest;
  }

  lemma {:induction false} SplitJoins(s: string)
    ensures Join(Split(s)) == s
    decreases |s|
  {
    hide FirstDot;
    var k := FirstDot(s);
    if k < |s| {
      var head, rest := s[..k], Split(s[k + 1..]);
      SplitJoins(s[k + 1..]);
      assert Split(s) == [head] + rest;
      JoinCons(head, rest);
      assert s == head + "." + s[k + 1..];
    }
  }

  lemma {:induction false} SplitDotless(s: string)
    ensures forall i | 0 <= i < |Split(s)| :: Dotless(Split(s)[i])
    decreases |s|
  {
    hide Join;
    var k := FirstDot(s);
    if k < |s| {
      SplitDotless(s[k + 1..]);
    }
  }

  lemma AfterDot(head: string, t: string)
    ensures DotSuffix(t, head + "." + t)
  {
    var d := head + "." + t;
    assert d[|head| + 1..] == t && d[|head|] == '.';
  }

  lemma DotSuffixTransitive(a: string, b: string, c: string)
    requires DotSuffix(a, b) && DotSuffix(b, c)
    ensures DotSuffix(a, c)
  {
    assert c[|c| - |b|..] == b;
    assert c[|c| - |a|..] == b[|b| - |a|..];
    assert |a| < |b| ==> c[|c| - |a| - 1] == b[|b| - |a| - 1];
  }

  lemma DotSuffixReflexive(a: string)
    ensures DotSuffix(a, a)
  {
    assert a[0..] == a;
  }

  lemma SameDotsAfter(a: string, b: string, dots: string)
    requires DotSuffix(a, b)
    ensures DotSuffix(a + dots, b + dots)
  {
    var x, y := a + dots, b + dots;
    assert y[|y| - |x|..] == b[|b| - |a|..] + dots;
    assert |a| < |b| ==> y[|y| - |x| - 1] == b[|b| - |a| - 1];
  }

  /** Every tail of the labels is a dot-suffix. */
  lemma {:induction false} TailIsDotSuffix(ls: seq<string>, i: nat)
    requires i < |ls|
    ensures DotSuffix(Join(ls[i..]), Join(ls))
  {
    hide DotSuffix;
    if i == 0 {
      assert ls[0..] == ls;
      DotSuffixReflexive(Join(ls));
    } else {
      TailIsDotSuffix(ls[1..], i - 1);
      assert ls[1..][i - 1..] == ls[i..];
      AfterDot(ls[0], Join(ls[1..]));
      DotSuffixTransitive(Join(ls[i..]), Join(ls[1..]), Join(ls));
    }
  }

  /** And every dot-suffix is a tail of the labels. */
  lemma {:induction false} DotSuffixIsTail(h: string, s: string) returns (i: nat)
    requires DotSuffix(h, s)
    ensures i < |Split(s)| && Join(Split(s)[i..]) == h
    decreases |s|
  {
    hide FirstDot, Join;
    var ls := Split(s);
    var k := FirstDot(s);
    SplitJoins(s);
    if |h| == |s| {
      i := 0;
      assert ls[0..] == ls && h == s[0..] == s;
    } else {
      var cut := |s| - |h| - 1;
      assert s[cut] == '.' && k <= cut;
      var t := s[k + 1..];
      assert t[|t| - |h|..] == h;
      assert |h| < |t| ==> t[|t| - |h| - 1] == s[cut];
      var j := DotSuffixIsTail(h, t);
      assert ls[1 + j..] == Split(t)[j..];
      i := 1 + j;
    }
  }

  lemma {:induction false} StripAppend(s: string, dots: string)
    requires forall i | 0 <= i < |dots| :: dots[i] == '.'
    ensures StripDots(s + dots) == StripDots(s)
    decreases |dots|
  {
    if dots == "" {
      assert s + dots == s;
    } else {
      var init := dots[..|dots| - 1];
      assert (s + dots)[..|s + dots| - 1] == s + init;
      StripAppend(s, init);
    }
  }

  lemma {:induction false} StripRest(s: string)
    ensures var r := StripDots(s); s == r + s[|r|..] && forall i | |r| <= i < |s| :: s[i] == '.'
  {
    if |s| > 0 && s[|s| - 1] == '.' {
      StripRest(s[..|s| - 1]);
      var r := StripDots(s);
      assert forall i | |r| <= i < |s| - 1 :: s[..|s| - 1][i] == s[i];
    }
  }

  /** One loop step on a longer tail: prepend the label, add a dot, trim one. */
  lemma StripLonger(head: string, tail: string)
    requires Dotless(head)
    ensures TrimDot(head + "." + StripDots(tail)) == StripDots(head + "." + tail)
  {
    var r := StripDots(tail);
    StripRest(tail);
    assert head + "." + tail == (head + "." + r) + tail[|r|..];
    StripAppend(head + "." + r, tail[|r|..]);
    if r == "" {
      StripLabel(head);
      StripAppend(head, ".");
      assert head + "." + r == head + ".";
    } else {
      assert (head + "." + r)[|head + "." + r| - 1] == r[|r| - 1];
    }
  }

  lemma StripLabel(head: string)
    requires Dotless(head)
    ensures TrimDot(head + "." + "") == head == StripDots(head)
  {
    assert (head + ".")[..|head|] == head;
    assert head + "." + "" == head + ".";
  }
}
