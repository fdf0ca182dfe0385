/** Powers and the few facts of nonlinear integer arithmetic the other modules share. */
module Arith {

  function Pow(b: nat, e: nat): nat {
    if e == 0 then 1 else b * Pow(b, e - 1)
  }

  lemma {:induction false} PowPositive(b: nat, e: nat)
    requires b > 0
    ensures Pow(b, e) > 0
  {
    if e > 0 {
      PowPositive(b, e - 1);
      MulPositive(b, Pow(b, e - 1));
    }
  }

  lemma {:induction false} PowAdd(b: nat, e: nat, f: nat)
    ensures Pow(b, e + f) == Pow(b, e) * Pow(b, f)
  {
    if e > 0 {
      PowAdd(b, e - 1, f);
      MulAssoc(b, Pow(b, e - 1), Pow(b, f));
    }
  }

  lemma MulPositive(a: int, b: int)
    requires a > 0 && b > 0
    ensures a * b > 0
  {
  }

  lemma MulAssoc(a: int, b: int, c: int)
    ensures a * (b * c) == (a * b) * c
  {
  }

  lemma MulLeft(a: int, b: int, c: int)
    requires 0 <= a && b <= c
    ensures a * b <= a * c
  {
  }

  /** Cancelling a positive factor of a strict inequality. */
  lemma MulCancelLess(a: int, b: int, c: int)
    requires c > 0 && a * c < b * c
    ensures a < b
  {
    if a >= b {
      MulLeft(c, b, a);
    }
  }

  /** Quotient and remainder are determined by the division equation. */
  lemma DivModUnique(a: int, q: int, r: int, m: int)
    requires m > 0 && 0 <= r < m && a == q * m + r
    ensures a / m == q && a % m == r
  {
    var q', r' := a / m, a % m;
    assert a == q' * m + r';
    assert (q' - q) * m == r - r';
    if q' > q {
      MulLeft(m, 1, q' - q);
    } else if q' < q {
      MulLeft(m, 1, q - q');
    }
  }

  lemma DivModEquation(a: int, m: int)
    requires m > 0
    ensures a == (a / m) * m + a % m && 0 <= a % m < m
  {
  }

  lemma ModSmall(a: nat, m: int)
    requires a < m
    ensures a / m == 0 && a % m == a
  {
    DivModUnique(a, 0, a, m);
  }

  /** A two-digit number is below the square of the base. */
  lemma TwoDigits(x: nat, y: nat, b: nat)
    requires x < b && y < b
    ensures x * b + y < b * b
  {
    MulLeft(b, x + 1, b);
  }

  lemma ProductPlusDigit(x: nat, y: nat, z: nat, b: nat)
    requires x < b && y < b && z < b
    ensures 0 <= x * y && x * y + z < b * b
  {
    MulLeft(x, y, b);
    MulLeft(b, x + 1, b);
  }

  lemma Distribute(a: int, b: int, c: int)
    ensures a * (b + c) == a * b + a * c
    ensures (b + c) * a == b * a + c * a
  {
  }

  /** One Horner step stays below the next power of the base. */
  lemma HornerBound(v: int, x: int, p: int, b: int)
    requires v < p && x < b && 0 < b
    ensures v * b + x < b * p
  {
    MulLeft(b, v + 1, p);
  }

  lemma QuotientBelow(w: nat, t: nat, b: nat)
    requires t > 0 && w < b * t
    ensures 0 <= w / t < b && 0 <= w % t < t && (w / t) * t + w % t == w
  {
    DivModEquation(w, t);
    MulCancelLess(w / t, b, t);
    MulCancelLess(-1, w / t, t);
  }
}
