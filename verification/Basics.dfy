/** Small definitions that several modules share. */
module Basics {

  const NUL := '\0'

  predicate IsBlank(c: char) {
    c == ' ' || c == '\t'
  }

  /** The string in a buffer: the characters before the first NUL. */
  ghost predicate IsString(a: array<char>, n: nat)
    reads a
  {
    n < a.Length && a[n] == NUL && forall k | 0 <= k < n :: a[k] != NUL
  }

  /** Every buffer with a NUL in it holds exactly one. */
  lemma OneString(a: array<char>)
    requires '\0' in a[..]
    ensures exists n: nat :: IsString(a, n)
    ensures forall m: nat, n: nat | IsString(a, m) && IsString(a, n) :: m == n
  {
    var k: nat :| k < a.Length && a[k] == '\0';
    var n := 0;
    while a[n] != '\0'
      invariant n <= k && forall i | 0 <= i < n :: a[i] != '\0'
      decreases k - n
    {
      n := n + 1;
    }
    assert IsString(a, n);
  }

  function Min(a: int, b: int): int {
    if a < b then a else b
  }

  function Max(a: int, b: int): int {
    if a < b then b else a
  }

  /** The same element over and over. */
  function Copies<T>(x: T, n: nat): (s: seq<T>)
    ensures |s| == n && forall i | 0 <= i < n :: s[i] == x
  {
    seq(n, _ => x)
  }
}
