/** Counting arguments over finite sets. */
module Counting {

  /** A list longer than the set its elements come from repeats one of them. */
  lemma {:induction false} Pigeonhole<T>(s: seq<T>, u: set<T>) returns (i: nat, j: nat)
    requires forall x | x in s :: x in u
    requires |u| < |s|
    ensures i < j < |s| && s[i] == s[j]
  {
    if s[0] in s[1..] {
      i, j := 0, 1;
      while s[j] != s[0]
        invariant 1 <= j < |s| && s[0] in s[j..]
        decreases |s| - j
      {
        j := j + 1;
      }
    } else {
      i, j := Pigeonhole(s[1..], u - {s[0]});
      i, j := i + 1, j + 1;
    }
  }

  /** The numbers below `n`. */
  ghost function Below(n: nat): (s: set<nat>)
    ensures |s| == n
    ensures forall v: nat :: v in s <==> v < n
  {
    if n == 0 then {} else Below(n - 1) + {n - 1}
  }
}
