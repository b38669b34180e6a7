/** Facts about multiplication and Euclidean division on naturals used by the binning and the homomorphic sum. */
module Arithmetic {

  lemma MulMonotone(a: nat, b: nat, c: nat)
    ensures a <= b ==> a * c <= b * c
  {
  }

  /** Products of naturals grow with both factors. */
  lemma MulLe(a: nat, b: nat, c: nat, d: nat)
    requires a <= c && b <= d
    ensures a * b <= c * d
  {
    MulMonotone(a, c, b);
    MulMonotone(b, d, c);
    assert b * c == c * b;
  }

  /** Euclidean division is unique: q*c + t with t < c divides to q, remainder t. */
  lemma DivModOfMultiplePlus(q: nat, c: nat, t: nat)
    requires t < c
    ensures (q * c + t) / c == q && (q * c + t) % c == t
  {
    var x := q * c + t;
    var d, m := x / c, x % c;
    assert x == d * c + m;
    MulMonotone(q + 1, d, c);
    MulMonotone(d + 1, q, c);
    assert (q + 1) * c == q * c + c;
    assert (d + 1) * c == d * c + c;
  }

  lemma MulSucc(i: nat, c: nat)
    ensures (i + 1) * c == i * c + c
  {
  }

  /** A smaller natural has a smaller quotient, or the same quotient and a smaller remainder. */
  lemma DivModBelow(i: nat, n: nat, c: nat)
    requires c > 0 && i < n
    ensures i / c < n / c || (i / c == n / c && i % c < n % c)
  {
    var j, q := i / c, n / c;
    assert i == j * c + i % c;
    assert n == q * c + n % c;
    MulMonotone(q + 1, j, c);
    assert (q + 1) * c == q * c + c;
  }

  /** Adding a multiple of m does not change the remainder modulo m. */
  lemma ModAddMultiple(k: nat, m: nat, t: nat)
    requires m > 0
    ensures (k * m + t) % m == t % m
  {
    var q, r := t / m, t % m;
    assert t == q * m + r;
    assert (k + q) * m == k * m + q * m;
    DivModOfMultiplePlus(k + q, m, r);
  }

  /** Reducing a factor modulo m before multiplying does not change the product modulo m. */
  lemma ModMulLeft(a: nat, c: nat, m: nat)
    requires m > 0
    ensures (a % m * c) % m == (a * c) % m
  {
    var q, r := a / m, a % m;
    assert a == q * m + r;
    assert a * c == (q * c) * m + r * c;
    ModAddMultiple(q * c, m, r * c);
  }
}
