/** Powers of two and aligned blocks: the arithmetic behind CIDR prefixes. */
module Bits {

  function Pow2(n: nat): (p: nat)
    ensures p >= 1
  {
    if n == 0 then 1 else 2 * Pow2(n - 1)
  }

  lemma {:induction false} Pow2Sum(a: nat, b: nat)
    ensures Pow2(a + b) == Pow2(a) * Pow2(b)
  {
    if a > 0 {
      Pow2Sum(a - 1, b);
      MulAssoc(2, Pow2(a - 1), Pow2(b));
    }
  }

  lemma MulAssoc(a: nat, b: nat, c: nat)
    ensures a * b * c == a * (b * c)
  {
  }

  lemma {:induction false} Pow2Grows(a: nat, b: nat)
    requires a <= b
    ensures Pow2(a) <= Pow2(b) && (a < b ==> 2 * Pow2(a) <= Pow2(b))
  {
    if a < b {
      Pow2Grows(a, b - 1);
    }
  }

  predicate Aligned(a: nat, k: nat) {
    a % Pow2(k) == 0
  }

  lemma MultipleOf(a: nat, p: nat) returns (q: nat)
    requires p > 0 && a % p == 0
    ensures a == q * p
  {
    q := a / p;
  }

  lemma MulMonotone(x: nat, y: nat, p: nat)
    requires x <= y
    ensures x * p <= y * p
  {
  }

  lemma MultipleMod(q: nat, p: nat)
    requires p > 0
    ensures (q * p) % p == 0
  {
    var m, r := (q * p) / p, (q * p) % p;
    assert q * p == m * p + r;
    if q > m {
      MulMonotone(m + 1, q, p);
    } else if q < m {
      MulMonotone(q + 1, m, p);
    }
  }

  /** The block of p addresses that starts at the multiple m of p holds x exactly when x has its quotient. */
  lemma SameQuotient(m: nat, x: nat, p: nat)
    requires p > 0 && m % p == 0
    ensures m <= x < m + p <==> x / p == m / p
  {
    var q := MultipleOf(m, p);
    var k, r := x / p, x % p;
    assert x == k * p + r && m / p == q by {
      assert m == (m / p) * p + m % p;
    }
    if k < q {
      MulMonotone(k + 1, q, p);
    } else if k > q {
      MulMonotone(q + 1, k, p);
    }
  }

  /** An aligned address is aligned for every smaller block. */
  lemma AlignedSmaller(a: nat, i: nat, j: nat)
    requires i <= j && Aligned(a, j)
    ensures Aligned(a, i)
  {
    var q := MultipleOf(a, Pow2(j));
    Pow2Sum(j - i, i);
    MulAssoc(q, Pow2(j - i), Pow2(i));
    MultipleMod(q * Pow2(j - i), Pow2(i));
  }

  lemma AlignedSum(a: nat, b: nat, k: nat)
    requires Aligned(a, k) && Aligned(b, k)
    ensures Aligned(a + b, k)
  {
    var p := MultipleOf(a, Pow2(k));
    var q := MultipleOf(b, Pow2(k));
    assert a + b == (p + q) * Pow2(k);
    MultipleMod(p + q, Pow2(k));
  }

  /** Distinct multiples are at least one block apart. */
  lemma NextMultiple(u: nat, v: nat, k: nat)
    requires Aligned(u, k) && Aligned(v, k) && u < v
    ensures u + Pow2(k) <= v
  {
    var x := MultipleOf(u, Pow2(k));
    var y := MultipleOf(v, Pow2(k));
    if y <= x {
      MulMonotone(y, x, Pow2(k));
    } else {
      MulMonotone(x + 1, y, Pow2(k));
    }
  }

  /** Aligned blocks nest: one that starts inside a larger one ends inside it. */
  lemma BlocksNest(a: nat, i: nat, b: nat, j: nat)
    requires i <= j && Aligned(a, i) && Aligned(b, j) && b <= a < b + Pow2(j)
    ensures a + Pow2(i) <= b + Pow2(j)
  {
    AlignedSmaller(b, i, j);
    MultipleMod(1, Pow2(j));
    AlignedSmaller(Pow2(j), i, j);
    AlignedSum(b, Pow2(j), i);
    NextMultiple(a, b + Pow2(j), i);
  }

  /** A block that ends after a larger one starts, but starts before it, is no block. */
  lemma BlocksApart(a: nat, i: nat, b: nat, j: nat)
    requires i <= j && Aligned(a, i) && Aligned(b, j) && a < b
    ensures a + Pow2(i) <= b
  {
    AlignedSmaller(b, i, j);
    NextMultiple(a, b, i);
  }
}
