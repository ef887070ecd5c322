/** Products and remainders. */
module Arithmetic {

  lemma Remainder(n: nat, a: nat, r: nat)
    requires r < a
    ensures (n * a + r) % a == r
  {
    var x := n * a + r;
    SameQuotient(n, r, x / a, x % a, a);
  }

  lemma SameQuotient(n: nat, r: nat, q: nat, t: nat, a: nat)
    requires r < a && t < a && n * a + r == q * a + t
    ensures r == t
  {
    if n > q { Product(n - q, a); }
    if n < q { Product(q - n, a); }
  }

  lemma Product(d: nat, a: nat)
    requires 0 < d
    ensures a <= d * a
  {
  }

  lemma Multiple(n: nat, a: nat)
    requires 0 < a
    ensures n * a % a == 0
  {
    Remainder(n, a, 0);
  }
}
