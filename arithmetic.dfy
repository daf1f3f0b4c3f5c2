/** Integer facts the flash model leans on. Multiples are defined by repeated
    subtraction so that the loop proofs need no division by a variable. */
module Arithmetic {

  /** `x` is a whole number of `m`s, written by repeated subtraction
      (MultipleIsMod gives the remainder form the source asserts). */
  predicate IsMultiple(x: nat, m: nat)
    decreases x
  {
    x == 0 || (0 < m <= x && IsMultiple(x - m, m))
  }

  lemma {:induction false} MultipleIsMod(x: nat, m: nat)
    requires m > 0
    ensures IsMultiple(x, m) <==> x % m == 0
    decreases x
  {
    if x >= m {
      MultipleIsMod(x - m, m);
      DivModUnique(x, m, (x - m) / m + 1, (x - m) % m);
    } else {
      DivModUnique(x, m, 0, x);
    }
  }

  /** The sum of two multiples is a multiple. */
  lemma {:induction false} MultipleAdd(a: nat, b: nat, m: nat)
    requires IsMultiple(a, m) && IsMultiple(b, m)
    ensures IsMultiple(a + b, m)
    decreases a
  {
    if a > 0 {
      MultipleAdd(a - m, b, m);
    }
  }

  /** A multiple of a multiple of `m` is a multiple of `m`. */
  lemma {:induction false} MultipleOfMultiple(x: nat, a: nat, m: nat)
    requires IsMultiple(x, a) && IsMultiple(a, m)
    ensures IsMultiple(x, m)
    decreases x
  {
    if x > 0 {
      MultipleOfMultiple(x - a, a, m);
      MultipleAdd(a, x - a, m);
    }
  }

  /** Quotient and remainder are unique. */
  lemma DivModUnique(x: int, m: int, q: int, r: int)
    requires m > 0 && 0 <= r < m && x == q * m + r
    ensures x % m == r
  {
    var q', r' := x / m, x % m;
    assert x == q' * m + r';
    if q' < q {
      MulMonotone(m, q' + 1, q);
    } else if q' > q {
      MulMonotone(m, q + 1, q');
    }
  }

  lemma MulMonotone(a: int, b: int, c: int)
    requires a >= 0 && b <= c
    ensures b * a <= c * a
  {
    assert c * a == b * a + (c - b) * a;
  }

  lemma MulSucc(a: nat, k: nat)
    ensures a * (k + 1) == a * k + a
  {
  }
}
