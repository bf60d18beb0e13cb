/** What Number() makes of a big integer, said of doubles: the nearest one, ties to the even neighbour. */
module NumberLaws {
  import opened KvMigration

  function Pow2(e: nat): (p: nat)
    ensures p > 0
  {
    if e == 0 then 1 else 2 * Pow2(e - 1)
  }

  /** n is m with e zeros behind its binary digits. */
  predicate Scaled(n: nat, m: nat, e: nat) {
    n == m * Pow2(e)
  }

  /** A natural number a double can hold: fifty-three binary digits and any number of zeros behind them. */
  ghost predicate Double(n: nat) {
    exists m: nat, e: nat :: m < TWO53 && Scaled(n, m, e)
  }

  lemma {:induction false} UlpShape(x: nat) returns (e: nat)
    ensures Ulp(x) == Pow2(e) && x / Ulp(x) < TWO53
    ensures e > 0 ==> TWO53 / 2 <= x / Ulp(x)
  {
    if x < TWO53 {
      e := 0;
    } else {
      e := UlpShape(x / 2);
      HalfOf(x, Pow2(e));
      e := e + 1;
    }
  }

  lemma HalfOf(x: nat, u: nat)
    requires u > 0
    ensures x / (2 * u) == x / 2 / u
  {
    var q, r := x / 2 / u, x / 2 % u;
    assert x / 2 == q * u + r;
    assert x == q * (2 * u) + (2 * r + x % 2);
    Quotient(x, 2 * u, q, 2 * r + x % 2);
  }

  lemma Quotient(x: nat, u: nat, q: nat, r: nat)
    requires u > 0 && r < u && x == q * u + r
    ensures x / u == q
  {
    var p := x / u;
    assert x == p * u + x % u;
    assert (p - q) * u == r - x % u;
    NoMultiple(p - q, u, r - x % u);
  }

  lemma NoMultiple(k: int, u: nat, d: int)
    requires k * u == d && 0 - u < d < u
    ensures k == 0
  {
  }

  lemma {:induction false} PowStep(f: nat, e: nat) returns (k: nat)
    requires f <= e
    ensures Pow2(e) == k * Pow2(f) && k > 0
  {
    if f == e {
      k := 1;
    } else {
      k := PowStep(f, e - 1);
      TwiceProduct(k, Pow2(f));
      k := 2 * k;
    }
  }

  lemma TwiceProduct(k: nat, p: nat)
    ensures 2 * (k * p) == (2 * k) * p
  {
  }

  /** No multiple lies strictly between neighbouring multiples. */
  lemma Between(k: int, q: int, u: nat)
    ensures k * u <= q * u || (q + 1) * u <= k * u
  {
    if k <= q {
      Monotone(k, q, u);
    } else {
      Monotone(q + 1, k, u);
    }
  }

  lemma Monotone(a: int, b: int, u: nat)
    requires a <= b
    ensures a * u <= b * u
  {
  }

  lemma Product(a: nat, b: nat, c: nat)
    ensures a * (b * c) == (a * b) * c
  {
  }

  /** No double lies strictly between the two neighbours of x. */
  lemma Outside(q: nat, e: nat, d: nat)
    requires Double(d) && (e > 0 ==> TWO53 / 2 <= q)
    ensures d <= q * Pow2(e) || (q + 1) * Pow2(e) <= d
  {
    var m: nat, f: nat :| m < TWO53 && Scaled(d, m, f);
    if e <= f {
      var k := PowStep(e, f);
      Product(m, k, Pow2(e));
      Between(m * k, q, Pow2(e));
    } else {
      var k := PowStep(f, e - 1);
      TwiceProduct(k, Pow2(f));
      Product(q, 2 * k, Pow2(f));
      Large(m, q, k);
      Monotone(m, q * (2 * k), Pow2(f));
    }
  }

  lemma Large(m: nat, q: nat, k: nat)
    requires m < TWO53 && TWO53 / 2 <= q && k > 0
    ensures m <= q * (2 * k)
  {
    Monotone(2, 2 * k, q);
    assert q * (2 * k) == (2 * k) * q;
  }

  function Apart(a: int, b: int): nat {
    if a < b then b - a else a - b
  }

  /** y, a multiple of u, is the nearer of two neighbouring multiples, the even one on a tie. */
  lemma NearerOf(x: nat, q: nat, u: nat, r: nat, y: nat, d: nat)
    requires x == q * u + r && r < u
    requires y == if 2 * r < u || (2 * r == u && q % 2 == 0) then q * u else (q + 1) * u
    requires d <= q * u || (q + 1) * u <= d
    ensures Apart(y, x) <= Apart(d, x)
    ensures Apart(y, x) == Apart(d, x) && d != y ==> y % (2 * Apart(d, y)) == 0
  {
    assert (q + 1) * u == q * u + u;
    if Apart(y, x) == Apart(d, x) && d != y {
      assert Apart(d, y) == u;
      var k := if y == q * u then q else q + 1;
      assert k % 2 == 0;
      assert y == k * u;
      EvenMultiple(k, u);
    }
  }

  lemma EvenMultiple(k: nat, u: nat)
    requires k % 2 == 0 && u > 0
    ensures (k * u) % (2 * u) == 0
  {
    assert k * u == (k / 2) * (2 * u);
    MultipleOf(k / 2, 2 * u);
  }

  lemma MultipleOf(k: nat, n: nat)
    requires n > 0
    ensures (k * n) % n == 0
  {
    var t := k * n;
    assert t == (t / n) * n + t % n;
    assert (k - t / n) * n == t % n;
    NoMultiple(k - t / n, n, t % n);
  }

  lemma DoubleAt(m: nat, e: nat)
    requires m <= TWO53
    ensures Double(m * Pow2(e))
  {
    if m == TWO53 {
      Product(TWO53 / 2, 2, Pow2(e));
      assert Scaled(m * Pow2(e), TWO53 / 2, e + 1);
    } else {
      assert Scaled(m * Pow2(e), m, e);
    }
  }

  /** The value is a double, no double is nearer, and of two that are as near it is the even one. */
  lemma Nearest(x: nat, d: nat)
    requires Double(d)
    ensures RoundNat(x) >= 0 && Double(RoundNat(x))
    ensures Apart(RoundNat(x), x) <= Apart(d, x)
    ensures Apart(RoundNat(x), x) == Apart(d, x) && d != RoundNat(x) ==> RoundNat(x) % (2 * Apart(d, RoundNat(x))) == 0
  {
    var e := UlpShape(x);
    var u := Ulp(x);
    var q: nat, r: nat := x / u, x % u;
    assert x == q * u + r;
    DoubleAt(q, e);
    DoubleAt(q + 1, e);
    Outside(q, e, d);
    hide *;
    RoundedIs(x, q, r, u);
    NearerOf(x, q, u, r, RoundNat(x), d);
  }

  lemma RoundedIs(x: nat, q: nat, r: nat, u: nat)
    requires u == Ulp(x) && q == x / u && r == x % u
    ensures RoundNat(x) == if 2 * r < u || (2 * r == u && q % 2 == 0) then q * u else (q + 1) * u
    ensures RoundNat(x) >= 0
  {
    hide Ulp;
  }

  /** An integer passes through a double unchanged if and only if a double holds it. */
  lemma ExactIs(x: int)
    ensures Exact(x) <==> Double(Apart(x, 0))
    ensures ToNumber(-x) == -ToNumber(x)
  {
    var n := Apart(x, 0);
    assert Scaled(0, 0, 0);
    Nearest(n, 0);
    if Double(n) {
      Nearest(n, n);
    }
    hide Double;
    assert RoundNat(0) == 0;
  }
}
