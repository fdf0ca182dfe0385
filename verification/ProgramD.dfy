/**
 * Multiprecision division: Knuth's Algorithm D on in-place digit arrays.
 * The digit base b is a power of two; an unsigned int holds two digits, a long long four.
 */
module ProgramD {
  import opened Arith
  import opened Digits

  ghost predicate IsBase(b: nat) {
    exists h :: h > 0 && b == Pow(2, h)
  }

  lemma BaseEven(b: nat)
    requires IsBase(b)
    ensures b >= 2 && b == 2 * (b / 2)
  {
    var h :| h > 0 && b == Pow(2, h);
    PowPositive(2, h - 1);
    DivModUnique(b, Pow(2, h - 1), 0, 2);
  }

  // ---------------------------------------------------------------- unsigned int

  /** Arithmetic in an unsigned int wraps modulo the square of the base. */
  function Wrap(x: int, b: nat): nat
    requires b > 0
  {
    MulPositive(b, b);
    x % (b * b)
  }

  function HHalf(x: nat, b: nat): nat
    requires b > 0
  {
    x / b
  }

  function LHalf(x: nat, b: nat): nat
    requires b > 0
  {
    x % b
  }

  /** COMBINE: two digits make one word. */
  function Combine(x: nat, y: nat, b: nat): nat
    requires b > 0
  {
    BitOr(Wrap(x * b, b), y)
  }

  lemma WrapSmall(x: nat, b: nat)
    requires x < b * b && b > 0
    ensures Wrap(x, b) == x
  {
    ModSmall(x, b * b);
  }

  lemma CombineValue(x: nat, y: nat, b: nat)
    requires IsBase(b) && x < b && y < b
    ensures Combine(x, y, b) == x * b + y
    ensures x * b + y < b * b
  {
    TwoDigits(x, y, b);
    WrapSmall(x * b, b);
    var h :| h > 0 && b == Pow(2, h);
    BitOrDisjoint(x, y, h);
  }

  // ---------------------------------------------------------------- D3: trial digit

  function Lead2(s: seq<nat>, b: nat): nat
    requires |s| >= 2
  {
    s[0] * b + s[1]
  }

  function Lead3(s: seq<nat>, b: nat): nat
    requires |s| >= 3
  {
    Lead2(s, b) * b + s[2]
  }

  /** qhat is the largest digit whose product with v's two leading digits fits u's three leading digits. */
  ghost predicate IsTrial(qhat: nat, u: seq<nat>, v: seq<nat>, b: nat)
    requires |u| >= 3 && |v| >= 2
  {
    qhat < b && qhat * Lead2(v, b) <= Lead3(u, b) &&
    (qhat == b - 1 || (qhat + 1) * Lead2(v, b) > Lead3(u, b))
  }

  /** What D3 keeps while it corrects the estimate: nn is qhat * v1 + rhat, and qhat is not too small. */
  ghost predicate Estimating(qhat: nat, rhat: nat, nn: nat, uj2: nat, v1: nat, v2: nat, b: nat) {
    qhat * v1 + rhat == nn && rhat < b && (qhat >= b - 1 || (qhat + 1) * (v1 * b + v2) > nn * b + uj2)
  }

  /** qhat's product with two divisor digits exceeds three dividend digits. */
  ghost predicate TooBig(qhat: nat, nn: nat, uj2: nat, v1: nat, v2: nat, b: nat) {
    qhat * (v1 * b + v2) > nn * b + uj2
  }

  /**
   * D3. The `goto qhat_too_big' enters the correction loop past its test; `tooBig' is that entry.
   * At most two corrections are made, because the divisor is normalised.
   */
  method TrialDigit(uj0: nat, uj1: nat, uj2: nat, v1: nat, v2: nat, b: nat) returns (qhat: nat)
    requires IsBase(b)
    requires uj0 <= v1 < b && uj1 < b && uj2 < b && v2 < b
    requires b <= 2 * v1
    ensures IsTrial(qhat, [uj0, uj1, uj2], [v1, v2], b)
    ensures (if uj0 == v1 then b else (uj0 * b + uj1) / v1) <= qhat + 2
  {
    BaseEven(b);
    hide *;
    ghost var nn := uj0 * b + uj1;
    var rhat: nat;
    var tooBig := uj0 == v1;
    if tooBig {
      FromBase(uj1, uj2, v1, v2, b);
      qhat, rhat := b, uj1;
    } else {
      CombineValue(uj0, uj1, b);
      FirstEstimate(uj0, uj1, uj2, v1, v2, b);
      var word := Combine(uj0, uj1, b);
      qhat, rhat := word / v1, word % v1;
    }
    ghost var first := qhat;
    while tooBig || Wrap(v2 * qhat, b) > Combine(rhat, uj2, b)
      invariant Estimating(qhat, rhat, nn, uj2, v1, v2, b) && rhat < b
      invariant tooBig ==> qhat == b
      invariant !tooBig ==> qhat < b
      invariant first - 1 <= qhat <= first
      invariant qhat < first ==> rhat >= v1
      decreases qhat
    {
      if !tooBig {
        TrialTest(qhat, rhat, nn, uj2, v1, v2, b);
      }
      tooBig := false;
      CorrectEstimate(qhat, rhat, nn, uj2, v1, v2, b);
      qhat, rhat := qhat - 1, rhat + v1;
      if rhat >= b {
        TrialSettled(qhat, uj0, uj1, uj2, v1, v2, b);
        return;
      }
    }
    TrialTest(qhat, rhat, nn, uj2, v1, v2, b);
    EstimateSettled(qhat, rhat, uj0, uj1, uj2, v1, v2, b);
  }

  /** One correction: either the estimate can still be too large, or the remainder is too large for that. */
  lemma CorrectEstimate(qhat: nat, rhat: nat, nn: nat, uj2: nat, v1: nat, v2: nat, b: nat)
    requires Estimating(qhat, rhat, nn, uj2, v1, v2, b) && 0 < qhat <= b && v2 < b
    requires qhat == b || TooBig(qhat, nn, uj2, v1, v2, b)
    ensures rhat + v1 < b ==> Estimating(qhat - 1, rhat + v1, nn, uj2, v1, v2, b)
    ensures rhat + v1 >= b ==> !TooBig(qhat - 1, nn, uj2, v1, v2, b)
  {
    var q, r: nat := qhat - 1, rhat + v1;
    assert q * v1 + r == nn by { Distribute(v1, q, 1); }
    if r >= b {
      LargeRemainder(q, r, nn, uj2, v1, v2, b);
    }
  }

  /** The digit at which the corrections end. */
  lemma TrialSettled(qhat: nat, uj0: nat, uj1: nat, uj2: nat, v1: nat, v2: nat, b: nat)
    requires qhat < b && !TooBig(qhat, uj0 * b + uj1, uj2, v1, v2, b)
    requires qhat == b - 1 || TooBig(qhat + 1, uj0 * b + uj1, uj2, v1, v2, b)
    ensures IsTrial(qhat, [uj0, uj1, uj2], [v1, v2], b)
  {
  }

  lemma EstimateSettled(qhat: nat, rhat: nat, uj0: nat, uj1: nat, uj2: nat, v1: nat, v2: nat, b: nat)
    requires Estimating(qhat, rhat, uj0 * b + uj1, uj2, v1, v2, b)
    requires qhat < b && !TooBig(qhat, uj0 * b + uj1, uj2, v1, v2, b)
    ensures IsTrial(qhat, [uj0, uj1, uj2], [v1, v2], b)
  {
    TrialSettled(qhat, uj0, uj1, uj2, v1, v2, b);
  }

  lemma FromBase(uj1: nat, uj2: nat, v1: nat, v2: nat, b: nat)
    requires uj1 < b
    ensures Estimating(b, uj1, v1 * b + uj1, uj2, v1, v2, b)
  {
  }

  /** The first estimate from two digits of the dividend and one of the divisor is never too small. */
  lemma FirstEstimate(uj0: nat, uj1: nat, uj2: nat, v1: nat, v2: nat, b: nat)
    requires 0 < v1 && uj0 < v1 < b && uj1 < b && uj2 < b
    ensures var nn := uj0 * b + uj1; 0 <= nn / v1 < b && 0 <= nn % v1 < b
    ensures var nn := uj0 * b + uj1; Estimating(nn / v1, nn % v1, nn, uj2, v1, v2, b)
  {
    var nn := uj0 * b + uj1;
    var q, r := nn / v1, nn % v1;
    DivModEquation(nn, v1);
    assert 0 <= q < b by {
      MulLeft(b, uj0 + 1, v1);
      MulCancelLess(q, b, v1);
      MulCancelLess(-1, q, v1);
    }
    EstimateEnough(q, nn, uj2, v1, v2, b);
  }

  lemma EstimateEnough(q: nat, nn: nat, uj2: nat, v1: nat, v2: nat, b: nat)
    requires uj2 < b && q * v1 + v1 > nn
    ensures (q + 1) * (v1 * b + v2) > nn * b + uj2
  {
    Distribute(v1, q, 1);
    MulLeft(b, nn + 1, (q + 1) * v1);
    MulAssoc(q + 1, v1, b);
    Distribute(q + 1, v1 * b, v2);
    MulLeft(q + 1, 0, v2);
  }

  /** The loop test of D3 compares qhat times the two leading divisor digits with three dividend digits. */
  lemma TrialTest(qhat: nat, rhat: nat, nn: nat, uj2: nat, v1: nat, v2: nat, b: nat)
    requires IsBase(b) && qhat < b && uj2 < b && v2 < b && Estimating(qhat, rhat, nn, uj2, v1, v2, b)
    ensures Wrap(v2 * qhat, b) > Combine(rhat, uj2, b) <==> TooBig(qhat, nn, uj2, v1, v2, b)
    ensures Wrap(v2 * qhat, b) > Combine(rhat, uj2, b) ==> qhat > 0
  {
    ProductPlusDigit(v2, qhat, 0, b);
    WrapSmall(v2 * qhat, b);
    CombineValue(rhat, uj2, b);
    SplitProduct(qhat, rhat, v1, v2, b);
    MulLeft(rhat, 0, b);
  }

  lemma SplitProduct(qhat: nat, rhat: nat, v1: nat, v2: nat, b: nat)
    ensures qhat * (v1 * b + v2) == qhat * v1 * b + v2 * qhat
    ensures (qhat * v1 + rhat) * b == qhat * v1 * b + rhat * b
  {
    MulAssoc(qhat, v1, b);
    Distribute(qhat, v1 * b, v2);
    Distribute(b, qhat * v1, rhat);
  }

  lemma LargeRemainder(qhat: nat, rhat: nat, nn: nat, uj2: nat, v1: nat, v2: nat, b: nat)
    requires qhat < b && v2 < b && rhat >= b && qhat * v1 + rhat == nn
    ensures qhat * (v1 * b + v2) <= nn * b + uj2
  {
    SplitProduct(qhat, rhat, v1, v2, b);
    MulLeft(qhat, v2, b);
    MulLeft(b, qhat, rhat);
  }

  /**
   * The trial-quotient theorem: with a nonzero leading divisor digit, the digit D3 settles on is
   * the true quotient digit or one more.  U = u3*k + ur and V = v2*k + vr split off the digits D3 looks at.
   */
  lemma TrialQuotient(qhat: nat, u3: nat, ur: nat, v2: nat, vr: nat, k: nat, b: nat)
    requires 0 < b && qhat < b && ur < k && vr < k && b <= v2
    requires qhat * v2 <= u3
    requires qhat == b - 1 || (qhat + 1) * v2 > u3
    requires u3 * k + ur < (v2 * k + vr) * b
    ensures v2 * k + vr > 0
    ensures var q := (u3 * k + ur) / (v2 * k + vr); 0 <= q < b && q <= qhat <= q + 1
  {
    MulPositive(v2, k);
    var U: nat, V: nat := u3 * k + ur, v2 * k + vr;
    TrialNotLarge(qhat, u3, ur, v2, vr, k, b);
    if qhat < b - 1 {
      TrialNotSmall(qhat, u3, ur, v2, vr, k);
    }
    QuotientWithin(qhat, U, V, b);
  }

  lemma QuotientWithin(qhat: nat, U: nat, V: nat, b: nat)
    requires V > 0 && U < V * b && qhat < b && qhat * V < U + V
    requires qhat == b - 1 || U < (qhat + 1) * V
    ensures 0 <= U / V < b && U / V <= qhat <= U / V + 1
  {
    var q := U / V;
    DivModEquation(U, V);
    MulCancelLess(q, b, V);
    MulCancelLess(-1, q, V);
    if qhat < b - 1 {
      MulCancelLess(q, qhat + 1, V);
    }
    BoundedExcess(qhat, q, U, V);
  }

  lemma BoundedExcess(qhat: nat, q: nat, U: nat, V: nat)
    requires V > 0 && U < q * V + V && qhat * V < U + V
    ensures qhat <= q + 1
  {
    Distribute(V, q, 2);
    MulCancelLess(qhat, q + 2, V);
  }

  lemma TrialNotSmall(qhat: nat, u3: nat, ur: nat, v2: nat, vr: nat, k: nat)
    requires ur < k && (qhat + 1) * v2 > u3
    ensures u3 * k + ur < (qhat + 1) * (v2 * k + vr)
  {
    var q := qhat + 1;
    MulLeft(k, u3 + 1, q * v2);
    MulAssoc(q, v2, k);
    MulLeft(q, 0, vr);
    Distribute(q, v2 * k, vr);
  }

  lemma TrialNotLarge(qhat: nat, u3: nat, ur: nat, v2: nat, vr: nat, k: nat, b: nat)
    requires qhat < b && vr < k && b <= v2 && qhat * v2 <= u3
    ensures qhat * (v2 * k + vr) < u3 * k + ur + (v2 * k + vr)
  {
    MulAssoc(qhat, v2, k);
    Distribute(qhat, v2 * k, vr);
    MulLeft(k, qhat * v2, u3);
    MulLeft(qhat, vr, k);
    MulLeft(k, qhat + 1, v2);
  }

  // ---------------------------------------------------------------- D4: multiply and subtract

  /** Digits a+1..a+n of s, the ones a C pointer p = &s[a] names p[1..n]. */
  function Digits1(s: seq<nat>, a: nat, n: nat): seq<nat>
    requires a + n < |s|
  {
    s[a + 1..a + n + 1]
  }

  lemma DigitsCons(s: seq<nat>, a: nat, n: nat)
    requires 0 < a && a + n < |s|
    ensures Digits1(s, a - 1, n + 1) == [s[a]] + Digits1(s, a, n)
  {
  }

  /** u differs from u0 at most in digits j+i+1..j+n. */
  ghost predicate Touched(u: seq<nat>, u0: seq<nat>, j: nat, i: int, n: nat) {
    |u| == |u0| && forall k :: 0 <= k < |u| && !(j + i < k <= j + n) ==> u[k] == u0[k]
  }

  /** D4 with the digits above i still to do and borrow t. */
  ghost predicate Subtracted(u: seq<nat>, u0: seq<nat>, j: nat, v: seq<nat>, w: nat, i: nat, n: nat, qhat: nat, t: nat,
                             b: nat)
    requires i <= n && j + n < |u| == |u0| && w + n < |v|
  {
    Val(Digits1(u, j + i, n - i), b) - t * Pow(b, n - i) ==
    Val(Digits1(u0, j + i, n - i), b) - qhat * Val(Digits1(v, w + i, n - i), b)
  }

  /**
   * D4. Subtracts qhat times the n digits v[w+1..] from the n+1 digits u[j..], in place, with the
   * borrow carried in a wrapped unsigned word.  The final borrow is reported, as D5 tests it.
   */
  method MultiplySubtract(u: array<nat>, j: nat, v: array<nat>, w: nat, n: nat, qhat: nat, b: nat)
    returns (borrow: bool)
    requires IsBase(b) && u != v && qhat < b
    requires j + n < u.Length && w + n < v.Length
    requires Digital(u[..], b) && Digital(v[..], b)
    modifies u
    ensures Digital(u[..], b) && Touched(u[..], old(u[..]), j, -1, n)
    ensures Val(u[..][j..j + n + 1], b) ==
            Val(old(u[..])[j..j + n + 1], b) - qhat * Val(Digits1(v[..], w, n), b)
            + (if borrow then Pow(b, n + 1) else 0)
  {
    hide Val, Pow, Subtracted;
    BaseEven(b);
    ghost var u0 := u[..];
    var i, t: nat := n, 0;
    SubtractStart(u0, j, v[..], w, n, qhat, b);
    while i > 0
      invariant 0 <= i <= n && t < b
      invariant Digital(u[..], b) && Touched(u[..], u0, j, i, n)
      invariant Subtracted(u[..], u0, j, v[..], w, i, n, qhat, t, b)
    {
      ghost var us, t0 := u[..], t;
      BorrowDigit(u[i + j], v[w + i], qhat, t, b);
      t := Wrap(u[i + j] - v[w + i] * qhat - t, b);
      u[i + j] := LHalf(t, b);
      t := (b - HHalf(t, b)) % b;
      SubtractOne(us, u[..], u0, j, v[..], w, i, n, qhat, t0, t, b);
      i := i - 1;
    }
    ghost var us, t0 := u[..], t;
    LastBorrow(u[j], t, b);
    t := Wrap(u[j] - t, b);
    u[j] := LHalf(t, b);
    borrow := HHalf(t, b) != 0;
    SubtractLast(us, u[..], u0, j, v[..], w, n, qhat, t0, borrow, b);
  }

  /** One wrapped difference of D4: its low digit and the borrow taken from its high digit are exact. */
  lemma BorrowDigit(x: nat, y: nat, qhat: nat, t: nat, b: nat)
    requires x < b && y < b && qhat < b && t < b
    ensures var w := Wrap(x - y * qhat - t, b);
      var t' := (b - HHalf(w, b)) % b;
      LHalf(w, b) < b && t' < b && LHalf(w, b) - t' * b == x - y * qhat - t
  {
    ProductPlusDigit(y, qhat, t, b);
    ProductGap(y, qhat, b);
    BorrowWord(x - y * qhat - t, b);
  }

  lemma BorrowWord(d: int, b: nat)
    requires b > 0 && b - b * b <= d < b
    ensures var w := Wrap(d, b);
      var t' := (b - HHalf(w, b)) % b;
      LHalf(w, b) < b && t' < b && LHalf(w, b) - t' * b == d
  {
    if d >= 0 {
      MulLeft(b, 1, b);
      ModSmall(d, b * b);
      ModSmall(d, b);
      DivModUnique(b, 1, 0, b);
    } else {
      DivModUnique(d, -1, d + b * b, b * b);
      NegativeBorrow(d, b);
    }
  }

  /** Reading a wrapped negative word: its complemented high digit is the borrow. */
  lemma NegativeBorrow(d: int, b: nat)
    requires b > 0 && b - b * b <= d < 0
    ensures var e := d + b * b; var t := (b - e / b) % b;
      0 <= e && 0 <= e / b && 0 <= e % b < b && 0 <= t < b && e % b - t * b == d
  {
    var e := d + b * b;
    MulLeft(b, 1, b);
    DivModEquation(e, b);
    MulCancelLess(e / b, b, b);
    MulCancelLess(0, e / b + 1, b);
    if e / b == 0 {
      assert false;
    }
    ModSmall(b - e / b, b);
    Distribute(b, b, -(e / b));
  }

  lemma ProductGap(y: nat, qhat: nat, b: nat)
    requires y < b && qhat < b
    ensures y * qhat + b - 1 + b <= b * b
  {
    MulLeft(y, qhat, b - 1);
    MulLeft(b - 1, y, b - 1);
    Distribute(b - 1, b, -1);
    Distribute(b, b, -1);
  }

  lemma SubtractStart(u: seq<nat>, j: nat, v: seq<nat>, w: nat, n: nat, qhat: nat, b: nat)
    requires j + n < |u| && w + n < |v|
    ensures Subtracted(u, u, j, v, w, n, n, qhat, 0, b)
  {
    assert Digits1(u, j + n, 0) == [] == Digits1(v, w + n, 0);
  }

  lemma SubtractOne(us: seq<nat>, u: seq<nat>, u0: seq<nat>, j: nat, v: seq<nat>, w: nat, i: nat, n: nat,
                    qhat: nat, t0: nat, t: nat, b: nat)
    requires 0 < i <= n && j + n < |u| == |u0| == |us| && w + n < |v|
    requires Touched(us, u0, j, i, n) && u == us[i + j := u[i + j]]
    requires u[i + j] - t * b == us[i + j] - v[w + i] * qhat - t0
    requires Subtracted(us, u0, j, v, w, i, n, qhat, t0, b)
    ensures Subtracted(u, u0, j, v, w, i - 1, n, qhat, t, b)
  {
    var p := Pow(b, n - i);
    var d, d0, e := Digits1(u, j + i, n - i), Digits1(u0, j + i, n - i), Digits1(v, w + i, n - i);
    assert d == Digits1(us, j + i, n - i);
    assert us[i + j] == u0[i + j];
    hide Digits1, Touched;
    DigitsCons(u, j + i, n - i);
    DigitsCons(u0, j + i, n - i);
    DigitsCons(v, w + i, n - i);
    ValCons(u[i + j], d, b);
    ValCons(u0[i + j], d0, b);
    ValCons(v[w + i], e, b);
    BorrowAlgebra(u[i + j], t, u0[i + j], v[w + i], t0, qhat, p, b, Val(d, b), Val(d0, b), Val(e, b));
  }

  lemma BorrowAlgebra(z: int, t: int, x: int, y: int, t0: int, q: int, p: int, b: int, d: int, d0: int, e: int)
    requires z - t * b == x - y * q - t0
    requires d - t0 * p == d0 - q * e
    ensures z * p + d - t * (b * p) == x * p + d0 - q * (y * p + e)
  {
    assert (z - t * b) * p == (x - y * q - t0) * p;
    assert (z - t * b) * p == z * p - t * (b * p);
    assert (x - y * q - t0) * p == x * p - q * (y * p) - t0 * p;
    Distribute(q, y * p, e);
  }

  lemma LastBorrow(x: nat, t: nat, b: nat)
    requires x < b && t < b
    ensures var w := Wrap(x - t, b);
      (HHalf(w, b) != 0 <==> x < t) && LHalf(w, b) < b &&
      LHalf(w, b) == x - t + (if x < t then b else 0)
  {
    MulLeft(b, 1, b);
    if x >= t {
      ModSmall(x - t, b * b);
      ModSmall(x - t, b);
    } else {
      DivModUnique(x - t, -1, x - t + b * b, b * b);
      Distribute(b, b, -1);
      DivModUnique(x - t + b * b, b - 1, x - t + b, b);
    }
  }

  lemma SubtractLast(us: seq<nat>, u: seq<nat>, u0: seq<nat>, j: nat, v: seq<nat>, w: nat, n: nat,
                     qhat: nat, t0: nat, borrow: bool, b: nat)
    requires j + n < |u| == |u0| == |us| && w + n < |v|
    requires Touched(us, u0, j, 0, n) && u == us[j := u[j]]
    requires u[j] == us[j] - t0 + (if borrow then b else 0)
    requires Subtracted(us, u0, j, v, w, 0, n, qhat, t0, b)
    ensures Val(u[j..j + n + 1], b) ==
            Val(u0[j..j + n + 1], b) - qhat * Val(Digits1(v, w, n), b) + (if borrow then Pow(b, n + 1) else 0)
  {
    var d, d0 := Digits1(u, j, n), Digits1(u0, j, n);
    assert d == Digits1(us, j, n);
    assert u[j..j + n + 1] == [u[j]] + d;
    assert u0[j..j + n + 1] == [u0[j]] + d0;
    ValCons(u[j], d, b);
    ValCons(u0[j], d0, b);
    LastAlgebra(u[j], u0[j], t0, if borrow then b else 0, Pow(b, n));
  }

  lemma LastAlgebra(z: int, x: int, t: int, carry: int, p: int)
    requires z == x - t + carry
    ensures z * p == x * p - t * p + carry * p
  {
  }

  // ---------------------------------------------------------------- D6: add back

  ghost predicate Added(u: seq<nat>, u0: seq<nat>, j: nat, v: seq<nat>, w: nat, i: nat, n: nat, t: nat, b: nat)
    requires i <= n && j + n < |u| == |u0| && w + n < |v|
  {
    Val(Digits1(u, j + i, n - i), b) + t * Pow(b, n - i) ==
    Val(Digits1(u0, j + i, n - i), b) + Val(Digits1(v, w + i, n - i), b)
  }

  /** D6. Adds v[w+1..w+n] into u[j..j+n]; the carry out of u[j] is dropped. */
  method AddBack(u: array<nat>, j: nat, v: array<nat>, w: nat, n: nat, b: nat)
    requires IsBase(b) && u != v
    requires j + n < u.Length && w + n < v.Length
    requires Digital(u[..], b) && Digital(v[..], b)
    modifies u
    ensures Digital(u[..], b) && Touched(u[..], old(u[..]), j, -1, n)
    ensures Pow(b, n + 1) > 0
    ensures Val(u[..][j..j + n + 1], b) ==
            (Val(old(u[..])[j..j + n + 1], b) + Val(Digits1(v[..], w, n), b)) % Pow(b, n + 1)
  {
    hide Val, Pow, Added;
    BaseEven(b);
    ghost var u0 := u[..];
    var i, t: nat := n, 0;
    AddStart(u0, j, v[..], w, n, b);
    while i > 0
      invariant 0 <= i <= n && t <= 1
      invariant Digital(u[..], b) && Touched(u[..], u0, j, i, n)
      invariant Added(u[..], u0, j, v[..], w, i, n, t, b)
    {
      ghost var us, t0 := u[..], t;
      CarryDigit(u[i + j], v[w + i], t, b);
      t := Wrap(t + u[i + j] + v[w + i], b);
      u[i + j] := LHalf(t, b);
      t := HHalf(t, b);
      AddOne(us, u[..], u0, j, v[..], w, i, n, t0, t, b);
      i := i - 1;
    }
    ghost var us, x := u[..], u[j];
    CarryDigit(u[j], 0, t, b);
    u[j] := LHalf(Wrap(u[j] + t, b), b);
    AddLast(us, u[..], u0, j, v[..], w, n, t, HHalf(Wrap(x + t, b), b), b);
  }

  lemma CarryDigit(x: nat, y: nat, t: nat, b: nat)
    requires b >= 2 && x < b && y < b && t <= 1
    ensures var w := Wrap(t + x + y, b);
      HHalf(w, b) <= 1 && LHalf(w, b) < b && LHalf(w, b) + HHalf(w, b) * b == t + x + y
  {
    MulLeft(b, 2, b);
    WrapSmall(t + x + y, b);
    if t + x + y < b {
      ModSmall(t + x + y, b);
    } else {
      DivModUnique(t + x + y, 1, t + x + y - b, b);
    }
  }

  lemma AddStart(u: seq<nat>, j: nat, v: seq<nat>, w: nat, n: nat, b: nat)
    requires j + n < |u| && w + n < |v|
    ensures Added(u, u, j, v, w, n, n, 0, b)
  {
    assert Digits1(u, j + n, 0) == [] == Digits1(v, w + n, 0);
  }

  lemma AddOne(us: seq<nat>, u: seq<nat>, u0: seq<nat>, j: nat, v: seq<nat>, w: nat, i: nat, n: nat, t0: nat, t: nat,
               b: nat)
    requires 0 < i <= n && j + n < |u| == |u0| == |us| && w + n < |v|
    requires Touched(us, u0, j, i, n) && u == us[i + j := u[i + j]]
    requires u[i + j] + t * b == t0 + us[i + j] + v[w + i]
    requires Added(us, u0, j, v, w, i, n, t0, b)
    ensures Added(u, u0, j, v, w, i - 1, n, t, b)
  {
    var p := Pow(b, n - i);
    var d, d0, e := Digits1(u, j + i, n - i), Digits1(u0, j + i, n - i), Digits1(v, w + i, n - i);
    assert d == Digits1(us, j + i, n - i);
    assert us[i + j] == u0[i + j];
    hide Digits1, Touched;
    DigitsCons(u, j + i, n - i);
    DigitsCons(u0, j + i, n - i);
    DigitsCons(v, w + i, n - i);
    ValCons(u[i + j], d, b);
    ValCons(u0[i + j], d0, b);
    ValCons(v[w + i], e, b);
    CarryAlgebra(u[i + j], t, u0[i + j], v[w + i], t0, p, b);
  }

  lemma CarryAlgebra(z: int, t: int, x: int, y: int, t0: int, p: int, b: int)
    requires z + t * b == t0 + x + y
    ensures z * p + t * (b * p) == t0 * p + x * p + y * p
  {
    assert (z + t * b) * p == (t0 + x + y) * p;
  }

  lemma AddLast(us: seq<nat>, u: seq<nat>, u0: seq<nat>, j: nat, v: seq<nat>, w: nat, n: nat, t: nat, c: nat, b: nat)
    requires b > 0 && j + n < |u| == |u0| == |us| && w + n < |v|
    requires Touched(us, u0, j, 0, n) && u == us[j := u[j]] && Digital(u, b)
    requires u[j] + c * b == us[j] + t
    requires Added(us, u0, j, v, w, 0, n, t, b)
    ensures Pow(b, n + 1) > 0
    ensures Val(u[j..j + n + 1], b) ==
            (Val(u0[j..j + n + 1], b) + Val(Digits1(v, w, n), b)) % Pow(b, n + 1)
  {
    var d, d0, e := Digits1(u, j, n), Digits1(u0, j, n), Digits1(v, w, n);
    assert d == Digits1(us, j, n);
    assert u[j..j + n + 1] == [u[j]] + d;
    assert u0[j..j + n + 1] == [u0[j]] + d0;
    hide Val;
    ValCons(u[j], d, b);
    ValCons(u0[j], d0, b);
    CarryAlgebra(u[j], c, us[j], 0, t, Pow(b, n), b);
    PowPositive(b, n + 1);
    ValBound(u[j..j + n + 1], b);
    DivModUnique(Val(u0[j..j + n + 1], b) + Val(e, b), c, Val(u[j..j + n + 1], b), Pow(b, n + 1));
  }

  // ---------------------------------------------------------------- D3 to D6: one quotient digit

  lemma SplitTwo(s: seq<nat>, b: nat)
    requires b > 0 && |s| >= 2 && Digital(s, b)
    ensures Val(s, b) == Lead2(s, b) * Pow(b, |s| - 2) + Val(s[2..], b)
    ensures Val(s[2..], b) < Pow(b, |s| - 2)
  {
    assert s == [s[0], s[1]] + s[2..];
    ValConcat([s[0], s[1]], s[2..], b);
    ValTwo(s[0], s[1], b);
    ValBound(s[2..], b);
  }

  lemma SplitThree(s: seq<nat>, b: nat)
    requires b > 0 && |s| >= 3 && Digital(s, b)
    ensures Val(s, b) == Lead3(s, b) * Pow(b, |s| - 3) + Val(s[3..], b)
    ensures Val(s[3..], b) < Pow(b, |s| - 3)
  {
    assert s == ([s[0], s[1]] + [s[2]]) + s[3..];
    ValConcat([s[0], s[1]] + [s[2]], s[3..], b);
    ValSnoc([s[0], s[1]], s[2], b);
    ValTwo(s[0], s[1], b);
    ValBound(s[3..], b);
  }

  /** A partial remainder below v*b does not have a larger leading digit than v. */
  lemma LeadingDigit(s: seq<nat>, v: seq<nat>, b: nat)
    requires b > 0 && |s| == |v| + 1 && |v| > 0 && Digital(s, b) && Digital(v, b)
    requires Val(s, b) < Val(v, b) * b
    ensures s[0] <= v[0]
  {
    hide Val;
    assert s == [s[0]] + s[1..] && v == [v[0]] + v[1..];
    ValCons(s[0], s[1..], b);
    ValCons(v[0], v[1..], b);
    ValBound(v[1..], b);
    LeadingAlgebra(s[0], v[0], Val(s[1..], b), Val(v[1..], b), Pow(b, |v| - 1), b);
  }

  lemma LeadingAlgebra(x: nat, y: nat, rs: nat, rv: nat, p: nat, b: nat)
    requires rv < p && b > 0 && x * (b * p) + rs < (y * p + rv) * b
    ensures x <= y
  {
    Distribute(p, y, 1);
    MulLeft(b, y * p + rv, (y + 1) * p);
    MulAssoc(y + 1, b, p);
    MulAssoc(y + 1, p, b);
    MulPositive(b, p);
    MulCancelLess(x, y + 1, b * p);
  }

  /**
   * Everything Program D knows after D3: the trial digit is the true one or one more.
   */
  lemma TrialIsClose(s: seq<nat>, v: seq<nat>, qhat: nat, b: nat)
    requires |s| == |v| + 1 && |v| >= 2 && Digital(s, b) && Digital(v, b)
    requires Val(s, b) < Val(v, b) * b && v[0] >= 1
    requires IsTrial(qhat, s, v, b)
    ensures Val(v, b) > 0
    ensures var q := Val(s, b) / Val(v, b); 0 <= q < b && q <= qhat <= q + 1
  {
    LeadingParts(s, v, b);
    CloseFromParts(Val(s, b), Val(v, b), qhat, Lead3(s, b), Val(s[3..], b),
                   Lead2(v, b), Val(v[2..], b), Pow(b, |v| - 2), b);
  }

  lemma LeadingParts(s: seq<nat>, v: seq<nat>, b: nat)
    requires |s| == |v| + 1 && |v| >= 2 && Digital(s, b) && Digital(v, b) && b > 0 && v[0] >= 1
    ensures Val(s, b) == Lead3(s, b) * Pow(b, |v| - 2) + Val(s[3..], b) && Val(s[3..], b) < Pow(b, |v| - 2)
    ensures Val(v, b) == Lead2(v, b) * Pow(b, |v| - 2) + Val(v[2..], b) && Val(v[2..], b) < Pow(b, |v| - 2)
    ensures b <= Lead2(v, b)
  {
    SplitThree(s, b);
    SplitTwo(v, b);
    MulLeft(b, 1, v[0]);
  }

  lemma CloseFromParts(U: nat, V: nat, qhat: nat, u3: nat, ur: nat, v2: nat, vr: nat, k: nat, b: nat)
    requires U == u3 * k + ur && V == v2 * k + vr
    requires 0 < b && qhat < b && ur < k && vr < k && b <= v2
    requires qhat * v2 <= u3
    requires qhat == b - 1 || (qhat + 1) * v2 > u3
    requires U < V * b
    ensures V > 0
    ensures var q := U / V; 0 <= q < b && q <= qhat <= q + 1
  {
    TrialQuotient(qhat, u3, ur, v2, vr, k, b);
  }

  /**
   * D4 and D5: a borrow comes out exactly when the trial digit is one too large, and then adding the
   * divisor back once leaves the true remainder.
   */
  lemma BorrowOutcome(U: nat, V: nat, qhat: nat, after: nat, borrow: bool, p: nat)
    requires V > 0 && U < p && V < p && after < p
    requires U / V <= qhat <= U / V + 1
    requires after == U - qhat * V + (if borrow then p else 0)
    ensures borrow <==> qhat == U / V + 1
    ensures if borrow then (after + V) % p == U % V else after == U % V
  {
    var q := U / V;
    DivModEquation(U, V);
    Distribute(V, q, 1);
    if borrow {
      if qhat == q { assert false; }
      DivModUnique(after + V, 1, U % V, p);
    }
  }

  /** D3 on the digits in place: the trial digit is within one of the true quotient digit. */
  method EstimateDigit(u: array<nat>, j: nat, v: array<nat>, w: nat, n: nat, b: nat) returns (qhat: nat)
    requires IsBase(b) && n >= 2
    requires j + n < u.Length && w + n < v.Length
    requires Digital(u[..], b) && Digital(v[..], b)
    requires b <= 2 * v[w + 1]
    requires Val(u[..][j..j + n + 1], b) < Val(Digits1(v[..], w, n), b) * b
    ensures qhat < b && Val(Digits1(v[..], w, n), b) > 0
    ensures var q := Val(u[..][j..j + n + 1], b) / Val(Digits1(v[..], w, n), b); 0 <= q < b && q <= qhat <= q + 1
  {
    BaseEven(b);
    ghost var s, e := u[..][j..j + n + 1], Digits1(v[..], w, n);
    LeadingDigit(s, e, b);
    qhat := TrialDigit(u[j], u[j + 1], u[j + 2], v[w + 1], v[w + 2], b);
    assert IsTrial(qhat, s, e, b) by {
      assert s[0] == u[j] && s[1] == u[j + 1] && s[2] == u[j + 2] && e[0] == v[w + 1] && e[1] == v[w + 2];
    }
    TrialIsClose(s, e, qhat, b);
  }

  /**
   * One pass of the D3-D6 body: the n+1 digits from u[j] are replaced by their remainder modulo the
   * divisor, and the quotient digit comes back.
   */
  method QuotientDigit(u: array<nat>, j: nat, v: array<nat>, w: nat, n: nat, b: nat) returns (q: nat)
    requires IsBase(b) && u != v && n >= 2
    requires j + n < u.Length && w + n < v.Length
    requires Digital(u[..], b) && Digital(v[..], b)
    requires b <= 2 * v[w + 1]
    requires Val(u[..][j..j + n + 1], b) < Val(Digits1(v[..], w, n), b) * b
    modifies u
    ensures Digital(u[..], b) && Touched(u[..], old(u[..]), j, -1, n)
    ensures Val(Digits1(v[..], w, n), b) > 0
    ensures q == Val(old(u[..])[j..j + n + 1], b) / Val(Digits1(v[..], w, n), b) && q < b
    ensures Val(u[..][j..j + n + 1], b) == Val(old(u[..])[j..j + n + 1], b) % Val(Digits1(v[..], w, n), b)
  {
    BaseEven(b);
    ghost var s, e := u[..][j..j + n + 1], Digits1(v[..], w, n);
    var qhat := EstimateDigit(u, j, v, w, n, b);
    var borrow := MultiplySubtract(u, j, v, w, n, qhat, b);
    ghost var after := u[..][j..j + n + 1];
    DigitBounds(s, e, after, b);
    BorrowOutcome(Val(s, b), Val(e, b), qhat, Val(after, b), borrow, Pow(b, n + 1));
    q := qhat;
    if borrow {
      q := qhat - 1;
      AddBack(u, j, v, w, n, b);
    }
  }

  lemma DigitBounds(s: seq<nat>, v: seq<nat>, after: seq<nat>, b: nat)
    requires b > 0 && |s| == |v| + 1 == |after| && Digital(s, b) && Digital(v, b) && Digital(after, b)
    ensures Val(s, b) < Pow(b, |s|) && Val(after, b) < Pow(b, |s|) && Val(v, b) < Pow(b, |s|)
  {
    ValBound(s, b);
    ValBound(after, b);
    ValBound(v, b);
    MulLeft(Pow(b, |v|), 1, b);
  }

  // ---------------------------------------------------------------- shifting digit strings

  /** One digit of shl: the low part of x moved up, filled from the top of y. */
  function ShiftedUp(x: nat, y: nat, lo: nat, hi: nat): nat
    requires hi > 0
  {
    (x % hi) * lo + y / hi
  }

  /** One digit of the remainder shifted right: the top part of x moved down, filled from the bottom of y. */
  function ShiftedDown(y: nat, x: nat, lo: nat, hi: nat): nat
    requires lo > 0
  {
    x / lo + (y % lo) * hi
  }

  lemma ShiftFactors(sh: nat, h: nat)
    requires sh <= h
    ensures Pow(2, sh) > 0 && Pow(2, h - sh) > 0 && Pow(2, sh) * Pow(2, h - sh) == Pow(2, h)
  {
    PowPositive(2, sh);
    PowPositive(2, h - sh);
    PowAdd(2, sh, h - sh);
  }

  lemma DigitUp(x: nat, y: nat, sh: nat, h: nat)
    requires sh <= h && x < Pow(2, h) && y < Pow(2, h)
    ensures Pow(2, h) > 0 && Pow(2, h - sh) > 0
    ensures BitOr(LHalf(Wrap(x * Pow(2, sh), Pow(2, h)), Pow(2, h)), y / Pow(2, h - sh))
            == ShiftedUp(x, y, Pow(2, sh), Pow(2, h - sh))
    ensures ShiftedUp(x, y, Pow(2, sh), Pow(2, h - sh)) < Pow(2, h)
  {
    hide Pow;
    ShiftFactors(sh, h);
    var lo, hi, b := Pow(2, sh), Pow(2, h - sh), Pow(2, h);
    UpBounds(x, y, lo, hi, b);
    ShiftedLow(x, lo, hi);
    BitOrDisjoint(x % hi, y / hi, sh);
  }

  lemma UpBounds(x: nat, y: nat, lo: nat, hi: nat, b: nat)
    requires lo > 0 && hi > 0 && lo * hi == b && x < b && y < b
    ensures Wrap(x * lo, b) == x * lo
    ensures 0 <= y / hi < lo && (x % hi) * lo + y / hi < b
  {
    MulLeft(lo, 1, hi);
    MulLeft(x, lo, b);
    MulLeft(b, x + 1, b);
    WrapSmall(x * lo, b);
    DivModEquation(y, hi);
    MulCancelLess(y / hi, lo, hi);
    MulCancelLess(-1, y / hi, hi);
    MulLeft(lo, x % hi + 1, hi);
    Distribute(lo, x % hi, 1);
  }

  lemma DigitDown(y: nat, x: nat, sh: nat, h: nat)
    requires sh <= h && x < Pow(2, h) && y < Pow(2, h)
    ensures Pow(2, h) > 0 && Pow(2, sh) > 0
    ensures BitOr(x / Pow(2, sh), LHalf(Wrap(y * Pow(2, h - sh), Pow(2, h)), Pow(2, h)))
            == ShiftedDown(y, x, Pow(2, sh), Pow(2, h - sh))
    ensures ShiftedDown(y, x, Pow(2, sh), Pow(2, h - sh)) < Pow(2, h)
  {
    hide Pow;
    ShiftFactors(sh, h);
    var lo, hi, b := Pow(2, sh), Pow(2, h - sh), Pow(2, h);
    UpBounds(y, x, hi, lo, b);
    ShiftedLow(y, hi, lo);
    BitOrDisjoint(y % lo, x / lo, h - sh);
    BitOrCommutes(x / lo, (y % lo) * hi);
  }

  /** Digits at+0..at+len of u0 shifted up within u, as far as digit at+i. */
  ghost predicate UpTo(u: seq<nat>, u0: seq<nat>, at: nat, i: nat, len: nat, lo: nat, hi: nat)
    requires i <= len && at + len < |u0| == |u| && hi > 0
  {
    (forall k :: 0 <= k < |u| && !(at <= k < at + i) ==> u[k] == u0[k]) &&
    (forall k :: at <= k < at + i ==> u[k] == ShiftedUp(u0[k], u0[k + 1], lo, hi))
  }

  /** shl: shifts p[at..at+len] left by sh bits; bits that fall out at the left are lost. */
  method Shl(p: array<nat>, at: nat, len: nat, sh: nat, h: nat)
    requires h > 0 && sh <= h && at + len < p.Length
    requires Digital(p[..], Pow(2, h))
    modifies p
    ensures Digital(p[..], Pow(2, h))
    ensures forall k :: 0 <= k < p.Length && !(at <= k <= at + len) ==> p[k] == old(p[k])
    ensures Pow(Pow(2, h), len + 1) > 0
    ensures Val(p[..][at..at + len + 1], Pow(2, h)) ==
            (Val(old(p[..])[at..at + len + 1], Pow(2, h)) * Pow(2, sh)) % Pow(Pow(2, h), len + 1)
  {
    hide Pow, Val, BitOr, ShiftedUp, Wrap;
    var b := Pow(2, h);
    ShiftFactors(sh, h);
    ghost var u0 := p[..];
    ghost var lo, hi := Pow(2, sh), Pow(2, h - sh);
    for i := 0 to len
      invariant Digital(p[..], b)
      invariant UpTo(p[..], u0, at, i, len, lo, hi)
    {
      DigitUp(p[at + i], p[at + i + 1], sh, h);
      p[at + i] := BitOr(LHalf(Wrap(p[at + i] * Pow(2, sh), b), b), p[at + i + 1] / Pow(2, h - sh));
    }
    ghost var last := p[at + len];
    DigitUp(last, 0, sh, h);
    ZeroFill(LHalf(Wrap(last * Pow(2, sh), b), b), hi);
    p[at + len] := LHalf(Wrap(p[at + len] * Pow(2, sh), b), b);
    ShiftedUpValue(u0[at..at + len + 1], p[..][at..at + len + 1], lo, hi, b);
  }

  lemma ZeroFill(x: nat, hi: nat)
    requires hi > 0
    ensures 0 / hi == 0 && BitOr(x, 0 / hi) == x
  {
    ModSmall(0, hi);
    BitOrZero(x);
  }

  /** Digitwise left shift multiplies the number by lo, modulo the digits available. */
  lemma ShiftedUpValue(u0: seq<nat>, u: seq<nat>, lo: nat, hi: nat, b: nat)
    requires lo > 0 && hi > 0 && lo * hi == b && |u0| == |u| > 0
    requires Digital(u, b)
    requires forall k :: 0 <= k < |u| - 1 ==> u[k] == ShiftedUp(u0[k], u0[k + 1], lo, hi)
    requires u[|u| - 1] == ShiftedUp(u0[|u| - 1], 0, lo, hi)
    ensures Pow(b, |u|) > 0
    ensures Val(u, b) == (Val(u0, b) * lo) % Pow(b, |u|)
  {
    var n := |u| - 1;
    MulPositive(lo, hi);
    PowPositive(b, |u|);
    ShiftedUpPrefix(u0, u, n, lo, hi, b);
    UpDigitAlgebra(u0[n], 0, lo, hi, b);
    UpStepAlgebra(Val(u[..n], b), u[n], Val(u0[..n], b), u0[n], u0[n] / hi, 0, u0[0] / hi, Pow(b, n), lo, b);
    ValBound(u, b);
    QuotientNonNegative(u0[0], hi);
    ModSmall(0, hi);
    DivModUnique(Val(u0, b) * lo, u0[0] / hi, Val(u, b), Pow(b, |u|));
  }

  lemma QuotientNonNegative(x: nat, m: int)
    requires m > 0
    ensures x / m >= 0
  {
  }

  lemma {:induction false} ShiftedUpPrefix(u0: seq<nat>, u: seq<nat>, i: nat, lo: nat, hi: nat, b: nat)
    requires lo > 0 && hi > 0 && lo * hi == b && i < |u0| == |u|
    requires forall k :: 0 <= k < |u| - 1 ==> u[k] == ShiftedUp(u0[k], u0[k + 1], lo, hi)
    ensures Val(u[..i], b) + (u0[0] / hi) * Pow(b, i) == Val(u0[..i], b) * lo + u0[i] / hi
  {
    if i > 0 {
      ShiftedUpPrefix(u0, u, i - 1, lo, hi, b);
      UpDigitAlgebra(u0[i - 1], u0[i], lo, hi, b);
      UpStepAlgebra(Val(u[..i - 1], b), u[i - 1], Val(u0[..i - 1], b), u0[i - 1], u0[i - 1] / hi, u0[i] / hi,
                    u0[0] / hi, Pow(b, i - 1), lo, b);
      assert u[..i][..i - 1] == u[..i - 1] && u0[..i][..i - 1] == u0[..i - 1];
    }
  }

  lemma UpDigitAlgebra(x: nat, y: nat, lo: nat, hi: nat, b: nat)
    requires lo > 0 && hi > 0 && lo * hi == b
    ensures ShiftedUp(x, y, lo, hi) == x * lo - (x / hi) * b + y / hi
  {
    DivModEquation(x, hi);
    ShiftAlgebra(x, x / hi, x % hi, lo, hi);
  }

  lemma UpStepAlgebra(v: int, z: int, v0: int, x: int, c: int, c': int, c0: int, p: int, lo: int, b: int)
    requires v + c0 * p == v0 * lo + c
    requires z == x * lo - c * b + c'
    ensures v * b + z + c0 * (b * p) == (v0 * b + x) * lo + c'
  {
    assert (v + c0 * p) * b == (v0 * lo + c) * b;
  }

  /** Digits at..at+len of u0 shifted down within u, from the last digit up to digit at+i+1. */
  ghost predicate DownFrom(u: seq<nat>, u0: seq<nat>, at: nat, i: nat, len: nat, lo: nat, hi: nat)
    requires i <= len && at + len < |u0| == |u| && lo > 0
  {
    (forall k :: 0 <= k < |u| && !(at + i < k <= at + len) ==> u[k] == u0[k]) &&
    (forall k :: at + i < k <= at + len ==> u[k] == ShiftedDown(u0[k - 1], u0[k], lo, hi))
  }

  /** Denormalisation of the remainder: u[at..at+len] shifted right by d, its leading zero kept zero. */
  method ShiftRemainder(u: array<nat>, at: nat, len: nat, d: nat, h: nat)
    requires h > 0 && d <= h && at + len < u.Length
    requires Digital(u[..], Pow(2, h)) && u[at] == 0
    modifies u
    ensures Digital(u[..], Pow(2, h))
    ensures forall k :: 0 <= k < u.Length && !(at < k <= at + len) ==> u[k] == old(u[k])
    ensures Pow(2, d) > 0
    ensures Val(u[..][at..at + len + 1], Pow(2, h)) == Val(old(u[..])[at..at + len + 1], Pow(2, h)) / Pow(2, d)
  {
    hide Pow, Val, BitOr, ShiftedDown, Wrap;
    var b := Pow(2, h);
    ShiftFactors(d, h);
    ghost var u0 := u[..];
    ghost var lo, hi := Pow(2, d), Pow(2, h - d);
    var i := len;
    while i > 0
      invariant 0 <= i <= len
      invariant Digital(u[..], b)
      invariant DownFrom(u[..], u0, at, i, len, lo, hi)
    {
      DigitDown(u[at + i - 1], u[at + i], d, h);
      u[at + i] := BitOr(u[at + i] / Pow(2, d), LHalf(Wrap(u[at + i - 1] * Pow(2, h - d), b), b));
      i := i - 1;
    }
    u[at] := 0;
    ShiftedDownValue(u0[at..at + len + 1], u[..][at..at + len + 1], lo, hi, b);
  }

  lemma ShiftedDownValue(u0: seq<nat>, u: seq<nat>, lo: nat, hi: nat, b: nat)
    requires lo > 0 && hi > 0 && lo * hi == b && |u0| == |u| > 0 && u0[0] == 0 == u[0]
    requires forall k :: 0 < k < |u| ==> u[k] == ShiftedDown(u0[k - 1], u0[k], lo, hi)
    ensures Val(u, b) == Val(u0, b) / lo
  {
    ShiftedDownPrefix(u0, u, |u| - 1, lo, hi, b);
    assert u[..|u|] == u && u0[..|u|] == u0;
    DivModUnique(Val(u0, b), Val(u, b), u0[|u| - 1] % lo, lo);
  }

  lemma {:induction false} ShiftedDownPrefix(u0: seq<nat>, u: seq<nat>, i: nat, lo: nat, hi: nat, b: nat)
    requires lo > 0 && hi > 0 && lo * hi == b && i < |u0| == |u| && u0[0] == 0 == u[0]
    requires forall k :: 0 < k < |u| ==> u[k] == ShiftedDown(u0[k - 1], u0[k], lo, hi)
    ensures Val(u[..i + 1], b) * lo + u0[i] % lo == Val(u0[..i + 1], b)
  {
    if i == 0 {
      assert u[..1] == [0] == u0[..1];
      ValOne(0, b);
      ModSmall(0, lo);
    } else {
      ShiftedDownPrefix(u0, u, i - 1, lo, hi, b);
      assert u[..i + 1][..i] == u[..i] && u0[..i + 1][..i] == u0[..i];
      DivModEquation(u0[i], lo);
      DownStepAlgebra(Val(u[..i], b), Val(u0[..i], b), u0[i - 1] % lo, u0[i], u0[i] / lo, u0[i] % lo, lo, hi, b);
    }
  }

  lemma DownStepAlgebra(v: int, v0: int, r: int, x: int, q: int, r': int, lo: int, hi: int, b: int)
    requires v * lo + r == v0 && lo * hi == b && x == q * lo + r'
    ensures (v * b + (q + r * hi)) * lo + r' == v0 * b + x
  {
    assert (r * hi) * lo == r * b by { MulAssoc(r, lo, hi); }
    assert (v * lo + r) * b == v0 * b;
  }
}
