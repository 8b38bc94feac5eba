/** Go's strconv.Itoa on naturals and strconv.Atoi with the error ignored, on byte strings. */
module Decimal {
  import opened Wrappers

  const MAX_INT := 0x7FFF_FFFF_FFFF_FFFF

  function Itoa(n: nat): (s: Bytes)
    ensures |s| > 0 && forall i | 0 <= i < |s| :: 48 <= s[i] <= 57
  {
    if n < 10 then [48 + n] else Itoa(n / 10) + [48 + n % 10]
  }

  /** The value of a non-empty string of digits. */
  function Digits(s: Bytes): Option<nat> {
    if s == [] then None
    else
      var d := s[|s| - 1];
      if !(48 <= d <= 57) then None
      else if |s| == 1 then Some(d - 48)
      else match Digits(s[..|s| - 1])
        case None => None
        case Some(v) => Some(v * 10 + (d - 48))
  }

  /** The number Atoi returns whatever its error: 0 for a malformed string, the nearest bound when out of range. */
  function Atoi(s: Bytes): int {
    var signed := |s| > 0 && (s[0] == 43 || s[0] == 45);
    match Digits(if signed then s[1..] else s)
    case None => 0
    case Some(v) =>
      var n: int := v;
      if signed && s[0] == 45 then (if n > MAX_INT + 1 then -MAX_INT - 1 else -n)
      else (if n > MAX_INT then MAX_INT else n)
  }

  lemma {:induction false} DigitsItoa(n: nat)
    ensures Digits(Itoa(n)) == Some(n)
  {
    if n >= 10 {
      DigitsItoa(n / 10);
      var s := Itoa(n);
      assert s[..|s| - 1] == Itoa(n / 10);
    }
  }

  lemma AtoiItoa(n: nat)
    requires n <= MAX_INT
    ensures Atoi(Itoa(n)) == n
  {
    DigitsItoa(n);
  }

  /** A text is a number exactly when it is not empty and all digits. */
  lemma {:induction false} DigitsIff(s: Bytes)
    ensures Digits(s).Some? <==> s != [] && forall i | 0 <= i < |s| :: 48 <= s[i] <= 57
  {
    if |s| > 1 {
      var n := |s| - 1;
      DigitsIff(s[..n]);
      assert forall i | 0 <= i < n :: s[..n][i] == s[i];
    }
  }

  /** Leading zeros do not count, and each further digit is worth ten times less. */
  lemma {:induction false} DigitsPositional(s: Bytes, d: byte)
    requires Digits(s).Some? && 48 <= d <= 57
    ensures Digits(s + [d]) == Some(Digits(s).value * 10 + (d - 48))
    ensures Digits([48] + s) == Digits(s)
  {
    assert (s + [d])[..|s|] == s;
    var n := |s| - 1;
    assert ([48] + s)[..|s|] == [48] + s[..n];
    if n > 0 {
      DigitsPositional(s[..n], d);
    }
  }

  /** A sign is taken off, and anything that is not a number then counts as 0. */
  lemma AtoiSigned(s: Bytes, n: nat)
    requires Digits(s) == Some(n)
    ensures Atoi(s) == Atoi([43] + s) == if n > MAX_INT then MAX_INT else n
    ensures Atoi([45] + s) == if n > MAX_INT + 1 then -MAX_INT - 1 else 0 - n
  {
    DigitsIff(s);
    assert ([43] + s)[1..] == s && ([45] + s)[1..] == s;
  }

  lemma AtoiOfJunk(s: Bytes)
    requires Digits(s).None? && (s == [] || s[0] !in {43, 45} || Digits(s[1..]).None?)
    ensures Atoi(s) == 0
  {
  }

  /** The text of a number is its only form without leading zeros. */
  lemma {:induction false} ItoaIff(s: Bytes, n: nat)
    ensures s == Itoa(n) <==> Digits(s) == Some(n) && (|s| == 1 || s[0] != 48)
    decreases n, |s|
  {
    DigitsItoa(n);
    ItoaStarts(n);
    if Digits(s) == Some(n) && (|s| == 1 || s[0] != 48) && |s| > 1 {
      var init := s[..|s| - 1];
      assert init[0] == s[0];
      DigitsLead(init);
      ItoaIff(init, n / 10);
      assert s == init + [s[|s| - 1]];
    }
  }

  lemma {:induction false} ItoaStarts(n: nat)
    ensures |Itoa(n)| == 1 || Itoa(n)[0] != 48
    ensures Itoa(n)[0] == 48 ==> n == 0
  {
    if n >= 10 {
      ItoaStarts(n / 10);
    }
  }

  /** A number that does not start with a zero is not zero. */
  lemma {:induction false} DigitsLead(s: Bytes)
    requires Digits(s).Some? && s[0] != 48
    ensures Digits(s).value > 0
  {
    if |s| > 1 {
      DigitsLead(s[..|s| - 1]);
    }
  }
}
