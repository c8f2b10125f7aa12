/**
 Facts about division and multiplication that the solver does not find by itself.
 */
module Arith {

  function Max(a: int, b: int): int { if a < b then b else a }

  lemma MulMono(a: int, b: int, s: nat)
    requires a <= b
    ensures a * s <= b * s
  {}

  /** A quotient and remainder are known by their range. */
  lemma DivIs(x: int, q: int, s: nat)
    requires s > 0 && q * s <= x < q * s + s
    ensures x / s == q && x % s == x - q * s
  {
    var d := x / s;
    assert x == d * s + x % s;
    if d < q {
      MulMono(d + 1, q, s);
    } else if q < d {
      MulMono(q + 1, d, s);
    }
  }

  lemma MulMod(k: int, s: nat)
    requires s > 0
    ensures k * s % s == 0 && k * s / s == k
  {
    DivIs(k * s, k, s);
  }

  lemma AddMul(a: int, k: int, s: nat)
    requires s > 0
    ensures (a + k * s) / s == a / s + k && (a + k * s) % s == a % s
  {
    DivIs(a + k * s, a / s + k, s);
  }

  lemma Regroup(q: int, n: nat, m: int, s: nat)
    ensures (q * n + m) * s == q * (n * s) + m * s
  {
    assert q * n * s == q * (n * s);
  }

  lemma Quotient(a: int, s: nat)
    requires s > 0
    ensures a == a / s * s + a % s && 0 <= a % s < s && (a >= 0 ==> a / s >= 0)
  {}

  lemma FromParts(a: int, q: int, m: int, r: int, s: nat, n: nat, t: nat)
    requires 0 < s && 0 < t == n * s && a == (q * n + m) * s + r && 0 <= r < s && 0 <= m < n
    ensures a / t == q && a % t == m * s + r && (m * s + r) % s == r
  {
    Regroup(q, n, m, s);
    MulMono(m + 1, n, s);
    MulMono(0, m, s);
    DivIs(a, q, t);
    DivIs(m * s + r, m, s);
  }

  /** Dividing by n * s is dividing by s, then by n. */
  lemma DivMul(a: int, s: nat, n: nat, t: nat)
    requires s > 0 && n > 0 && t == n * s
    ensures t > 0
    ensures a / t == a / s / n
    ensures a % t == a / s % n * s + a % s
    ensures a % t % s == a % s
  {
    MulMono(1, n, s);
    var d, r := a / s, a % s;
    var q, m := d / n, d % n;
    Quotient(a, s);
    Quotient(d, n);
    FromParts(a, q, m, r, s, n, t);
  }

  /** The part of x below a floor to multiples of s. */
  lemma FloorReaches(x: int, n: int, s: nat)
    requires s > 0 && n * s <= x
    ensures n * s <= x / s * s <= x
    ensures x < n * s + s ==> x / s == n
  {
    var d := x / s;
    assert x == d * s + x % s;
    if d < n {
      MulMono(d + 1, n, s);
    }
    MulMono(n, d, s);
    if x < n * s + s {
      DivIs(x, n, s);
    }
  }
}
