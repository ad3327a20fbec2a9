/** Small facts about multiplication and division that the solver does not
    find by itself. */
module Arith {

  /** Multiplying by a natural number: a product with `q <= 0` is at most
      0, one with `q >= 1` is at least `b`. */
  lemma MulLeft(b: nat, q: int)
    ensures q <= 0 ==> b * q <= 0
    ensures q >= 1 ==> b * q >= b
  {
  }

  /** From `x * b < y * b` with positive `b`, `x < y`. */
  lemma LessFromProduct(x: int, y: int, b: nat)
    requires b > 0 && x * b < y * b
    ensures x < y
  {
    assert (y - x) * b == y * b - x * b;
    MulLeft(b, y - x);
  }

  /** Division is determined by quotient and remainder. */
  lemma DivUnique(n: int, b: nat, q: int, r: int)
    requires b > 0 && 0 <= r < b && n == q * b + r
    ensures n / b == q && n % b == r
  {
    var q' := n / b;
    assert n == q' * b + n % b;
    assert (q + 1) * b == q * b + b;
    assert (q' + 1) * b == q' * b + b;
    LessFromProduct(q', q + 1, b);
    LessFromProduct(q, q' + 1, b);
  }

  /** Counting up by one moves the remainder up by one, or wraps it to 0. */
  lemma ModSucc(a: nat, m: nat)
    requires m > 0
    ensures a % m + 1 < m ==> (a + 1) % m == a % m + 1
    ensures a % m + 1 == m ==> (a + 1) % m == 0
  {
    var q, r := a / m, a % m;
    assert a == q * m + r;
    if r + 1 < m {
      DivUnique(a + 1, m, q, r + 1);
    } else {
      assert a + 1 == (q + 1) * m + 0;
      DivUnique(a + 1, m, q + 1, 0);
    }
  }

  /** Shifting by the modulus keeps the remainder. */
  lemma ModShift(a: nat, m: nat)
    requires m > 0
    ensures (a + m) % m == a % m
  {
    var q, r := a / m, a % m;
    assert a == q * m + r;
    assert a + m == (q + 1) * m + r;
    DivUnique(a + m, m, q + 1, r);
  }

  /** A positive multiple of `m` is at least `m`. */
  lemma MultipleAtLeast(a: nat, m: nat)
    requires m > 0 && a > 0 && a % m == 0
    ensures a >= m
  {
    assert a == (a / m) * m;
    MulLeft(m, a / m);
  }

  /** Multiplying by a positive number keeps strict order. */
  lemma MulStrict(a: nat, b: nat, w: nat)
    requires a < b && w > 0
    ensures a * w < b * w
  {
    assert b * w == a * w + (b - a) * w;
    MulLeft(w, b - a);
  }
}
