/** Positions in a circular sequence of `n` elements: index `k` stands for a
    place in the circle, its successor is `Succ(k, n)` and the position `d`
    steps on is `Fwd(k, d, n)`. */
module Circular {
  function Succ(k: nat, n: nat): (s: nat)
    requires k < n
    ensures s < n
  {
    if k + 1 == n then 0 else k + 1
  }

  function Pred(k: nat, n: nat): (p: nat)
    requires k < n
    ensures p < n
  {
    if k == 0 then n - 1 else k - 1
  }

  /** The position `d` steps after `k`, for `d <= n`. */
  function Fwd(k: nat, d: nat, n: nat): (j: nat)
    requires k < n && d <= n
    ensures j < n
  {
    if k + d < n then k + d else k + d - n
  }

  /** Steps from `k` forwards to `j`, in `0 .. n - 1`. */
  function Dist(k: nat, j: nat, n: nat): (d: nat)
    requires k < n && j < n
    ensures d < n
    ensures Fwd(k, d, n) == j
    ensures d == 0 <==> j == k
  {
    if j >= k then j - k else j + n - k
  }

  lemma FwdFacts(k: nat, d: nat, n: nat)
    requires k < n && d < n
    ensures Dist(k, Fwd(k, d, n), n) == d
    ensures Succ(Fwd(k, d, n), n) == Fwd(k, d + 1, n)
    ensures Pred(Fwd(k, d + 1, n), n) == Fwd(k, d, n)
    ensures Fwd(k, n, n) == k
  {
  }

  /** A walk of `0 < t <= n` steps comes back to where it began exactly after
      a whole lap. */
  lemma LapEnd(first: nat, t: nat, n: nat, current: nat)
    requires first < n && 0 < t <= n && current == Fwd(first, t, n)
    ensures current == first <==> t == n
  {
    if t < n {
      FwdFacts(first, t, n);
    }
  }
}
