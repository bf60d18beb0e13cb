/**
 * The nearest-rank percentile of the load report, over exact numbers.
 */
module Percentile {

  ghost predicate Sorted(xs: seq<real>) {
    forall i, j :: 0 <= i <= j < |xs| ==> xs[i] <= xs[j]
  }

  function Ceil(x: real): (c: int)
    ensures (c - 1) as real < x <= c as real
  {
    -((-x).Floor)
  }

  /** The rank p percent of n samples asks for. */
  function Rank(p: real, n: nat): int {
    Ceil((p / 100.0) * n as real)
  }

  lemma RankPositive(p: real, n: nat)
    requires p > 0.0 && n >= 1
    ensures Rank(p, n) >= 1
    ensures p <= 100.0 ==> Rank(p, n) <= n
  {
    var x := p / 100.0;
    assert x > 0.0;
    var y := x * n as real;
    assert y > 0.0 by {
      Multiply(0.0, x, n as real);
    }
    if p <= 100.0 {
      MultiplyLe(x, 1.0, n as real);
    }
  }

  lemma Multiply(a: real, b: real, c: real)
    requires a < b && c > 0.0
    ensures a * c < b * c
  {
  }

  lemma MultiplyLe(a: real, b: real, c: real)
    requires a <= b && c >= 0.0
    ensures a * c <= b * c
  {
  }

  function Min(a: int, b: int): int {
    if a < b then a else b
  }

  /** latencies[Math.min(latencies.length - 1, Math.ceil((p / 100) * latencies.length) - 1)] */
  function Pct(xs: seq<real>, p: real): (v: real)
    requires xs != [] && p > 0.0
    ensures v in xs
  {
    RankPositive(p, |xs|);
    xs[Min(|xs| - 1, Rank(p, |xs|) - 1)]
  }

  function CountAtMost(xs: seq<real>, v: real): nat {
    if xs == [] then 0 else (if xs[0] <= v then 1 else 0) + CountAtMost(xs[1..], v)
  }

  function CountBelow(xs: seq<real>, v: real): nat {
    if xs == [] then 0 else (if xs[0] < v then 1 else 0) + CountBelow(xs[1..], v)
  }

  /** In sorted samples the first k are at most the sample at k - 1, and none from k on is below the sample at k. */
  lemma {:induction false} AtLeastPrefix(xs: seq<real>, v: real, k: nat)
    requires k <= |xs| && forall i :: 0 <= i < k ==> xs[i] <= v
    ensures CountAtMost(xs, v) >= k
  {
    if k > 0 {
      AtLeastPrefix(xs[1..], v, k - 1);
    }
  }

  lemma {:induction false} AtMostPrefix(xs: seq<real>, v: real, k: nat)
    requires k <= |xs| && forall i :: k <= i < |xs| ==> xs[i] >= v
    ensures CountBelow(xs, v) <= k
  {
    if k > 0 {
      AtMostPrefix(xs[1..], v, k - 1);
    } else if xs != [] {
      AtMostPrefix(xs[1..], v, 0);
    }
  }

  /** The samples that are at most u are all below a larger v. */
  lemma {:induction false} CountOrder(xs: seq<real>, u: real, v: real)
    requires u < v
    ensures CountAtMost(xs, u) <= CountBelow(xs, v)
  {
    if xs != [] {
      CountOrder(xs[1..], u, v);
    }
  }

  /** v has nearest rank m: at least m samples are at or below it, fewer than m strictly below. */
  ghost predicate HasRank(xs: seq<real>, v: real, m: int) {
    v in xs && CountAtMost(xs, v) >= m && CountBelow(xs, v) < m
  }

  /** The percentile is the one sample of the nearest rank ceil(p n / 100). */
  lemma PctHasRank(xs: seq<real>, p: real, v: real)
    requires Sorted(xs) && xs != [] && 0.0 < p <= 100.0
    ensures v == Pct(xs, p) <==> HasRank(xs, v, Rank(p, |xs|))
  {
    RankPositive(p, |xs|);
    var m := Rank(p, |xs|);
    var w := Pct(xs, p);
    AtLeastPrefix(xs, w, m);
    AtMostPrefix(xs, w, m - 1);
    if HasRank(xs, v, m) && v != w {
      if v < w {
        CountOrder(xs, v, w);
      } else {
        CountOrder(xs, w, v);
      }
    }
  }

  lemma CeilMonotone(a: real, b: real)
    requires a <= b
    ensures Ceil(a) <= Ceil(b)
  {
  }

  lemma RankMonotone(p: real, q: real, n: nat)
    requires p <= q
    ensures Rank(p, n) <= Rank(q, n)
    ensures p <= 100.0 <= q ==> Rank(q, n) >= n
  {
    hide Ceil;
    MultiplyLe(p / 100.0, q / 100.0, n as real);
    CeilMonotone((p / 100.0) * n as real, (q / 100.0) * n as real);
    if q >= 100.0 {
      MultiplyLe(1.0, q / 100.0, n as real);
    }
  }

  /** A higher percentage never gives a smaller sample, and none gives more than the maximum. */
  lemma PctMonotone(xs: seq<real>, p: real, q: real)
    requires Sorted(xs) && xs != [] && 0.0 < p <= q
    ensures Pct(xs, p) <= Pct(xs, q) <= xs[|xs| - 1]
    ensures p <= 100.0 <= q ==> Pct(xs, q) == xs[|xs| - 1]
  {
    RankPositive(p, |xs|);
    RankPositive(q, |xs|);
    RankMonotone(p, q, |xs|);
    hide Rank;
  }
}
