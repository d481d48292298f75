/** Runs of zero groups: the leftmost longest one is what "::" stands for (sections 4.2.1
    to 4.2.3 of RFC 5952). */
module ZeroRuns {

  predicate ZeroRun(g: seq<nat>, a: int, n: int) {
    0 <= a && 0 <= n && a + n <= |g| && forall j :: a <= j < a + n ==> g[j] == 0
  }

  /** No run that ends by `hi` is longer, and none as long starts further left. */
  ghost predicate LongestIn(g: seq<nat>, hi: int, a: int, n: int) {
    && ZeroRun(g, a, n) && a + n <= hi
    && (forall b, m :: ZeroRun(g, b, m) && b + m <= hi ==> m <= n)
    && (forall b :: ZeroRun(g, b, n) && b + n <= hi ==> n == 0 || a <= b)
    && (n == 0 ==> a == 0)
  }

  ghost predicate Longest(g: seq<nat>, a: int, n: int) { LongestIn(g, |g|, a, n) }

  /** The run that starts at `a`. */
  function RunAt(g: seq<nat>, a: nat): (n: nat)
    ensures a <= |g| ==> ZeroRun(g, a, n) && forall m :: ZeroRun(g, a, m) ==> m <= n
    decreases |g| - a
  {
    if a >= |g| || g[a] != 0 then 0
    else
      assert forall m :: m > 0 && ZeroRun(g, a, m) ==> ZeroRun(g, a + 1, m - 1);
      1 + RunAt(g, a + 1)
  }

  /** The leftmost longest run among those starting before `k`. */
  function LongestBefore(g: seq<nat>, k: nat): (r: (nat, nat))
    requires k <= |g|
    ensures ZeroRun(g, r.0, r.1)
    ensures forall b, m :: ZeroRun(g, b, m) && b < k ==> m <= r.1 && (m == r.1 && m > 0 ==> r.0 <= b)
    ensures if r.1 == 0 then r.0 == 0 else r.0 < k
  {
    if k == 0 then (0, 0)
    else
      var r := LongestBefore(g, k - 1);
      if RunAt(g, k - 1) > r.1 then (k - 1, RunAt(g, k - 1)) else r
  }

  function LongestRun(g: seq<nat>): (r: (nat, nat))
    ensures Longest(g, r.0, r.1)
  {
    LongestBefore(g, |g|)
  }

  /** There is only one answer. */
  lemma LongestUnique(g: seq<nat>, a: int, n: int, b: int, m: int)
    requires Longest(g, a, n) && Longest(g, b, m)
    ensures a == b && n == m
  {
  }

  /** A run that cannot be extended on either side competes with the best one before it. */
  lemma CloseRun(g: seq<nat>, c: nat, k: nat, a: int, n: int)
    requires c <= k <= |g| && LongestIn(g, c, a, n) && ZeroRun(g, c, k - c)
    requires c > 0 ==> g[c - 1] != 0
    ensures if k - c > n then LongestIn(g, k, c, k - c) else LongestIn(g, k, a, n)
  {
    forall b, m | ZeroRun(g, b, m) && b + m <= k
      ensures m <= n || (c <= b && m <= k - c)
    {
    }
  }

  lemma SkipNonzero(g: seq<nat>, k: nat, a: int, n: int)
    requires k < |g| && g[k] != 0 && LongestIn(g, k, a, n)
    ensures LongestIn(g, k + 1, a, n)
  {
    forall b, m | ZeroRun(g, b, m) && b + m <= k + 1 ensures m <= n
    {
    }
    forall b | ZeroRun(g, b, n) && b + n <= k + 1 ensures n == 0 || a <= b
    {
    }
  }
}
