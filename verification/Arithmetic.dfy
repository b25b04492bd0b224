/** Products and quotients of naturals, as the geometry and the buffer sizes need them. */
module Arithmetic {

  /** The bytes of `rows` rows of `size` bytes. */
  function Area(rows: nat, size: nat): nat {
    rows * size
  }

  lemma Scaled(a: nat, b: nat, c: nat)
    requires a <= b
    ensures 0 <= a * c <= b * c
  {
  }

  lemma ScaledLess(a: nat, b: nat, c: nat)
    requires a * c < b * c
    ensures a < b
  {
    if b <= a {
      Scaled(b, a, c);
    }
  }

  lemma OneMore(n: nat, size: nat)
    ensures (n + 1) * size == n * size + size
  {
  }

  lemma Regroup(a: nat, b: nat, c: nat)
    ensures a * b * c == c * b * a == a * c * b == c * a * b == b * c * a
  {
  }

  /** Whole rows before the n-th, and the row itself when there are more. */
  lemma AreaAhead(x: nat, n: nat, size: nat)
    requires x <= n
    ensures Area(x, size) <= Area(n, size) && (x < n ==> Area(x, size) + size <= Area(n, size))
    ensures Area(x + 1, size) == Area(x, size) + size
    ensures Area(0, size) == 0
  {
    OneMore(x, size);
    Scaled(x, n, size);
    if x < n {
      Scaled(x + 1, n, size);
    }
  }

  /** The quotient is the largest number that fits. */
  lemma QuotientFits(a: nat, b: nat)
    requires 0 < b
    ensures a / b * b <= a < a / b * b + b
  {
    assert a == a / b * b + a % b;
  }

  lemma QuotientLargest(k: nat, a: nat, b: nat)
    requires 0 < b
    requires k * b <= a
    ensures k <= a / b
  {
    QuotientFits(a, b);
    if a / b + 1 <= k {
      Scaled(a / b + 1, k, b);
    }
  }

  lemma MultipleOf(q: nat, a: nat)
    requires 0 < a
    ensures q * a % a == 0 && q * a / a == q
  {
    QuotientFits(q * a, a);
    QuotientLargest(q, q * a, a);
    OneMore(q, a);
    ScaledLess(q * a / a, q + 1, a);
  }
}
