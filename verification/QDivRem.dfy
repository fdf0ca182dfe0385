/**
 * __qdivrem: unsigned division of two four-digit numbers.  Three paths: dividend below divisor,
 * one-digit divisor, and Program D with normalisation.
 */
module QDivRem {
  import opened Arith
  import opened Basics
  import opened Digits
  import opened ProgramD

  /** The largest long long plus one: four digits. */
  function LongRange(b: nat): nat { Pow(b, 4) }

  // ---------------------------------------------------------------- long long <-> digits

  lemma PowSmall(b: nat)
    ensures Pow(b, 1) == b && Pow(b, 2) == b * b && Pow(b, 4) == b * b * (b * b)
  {
    PowAdd(b, 2, 2);
  }

  /** One word splits into two digits. */
  lemma WordDigits(x: nat, b: nat)
    requires b > 0 && x < b * b
    ensures 0 <= x / b < b && 0 <= x % b < b && Val([x / b, x % b], b) == x
  {
    hide Val;
    DivModEquation(x, b);
    MulCancelLess(x / b, b, b);
    MulCancelLess(-1, x / b, b);
    ValTwo(x / b, x % b, b);
  }

  /** The union uu: a long long split into two words and those into digits, behind a spare leading digit. */
  method BreakDigits(x: nat, b: nat) returns (a: array<nat>)
    requires b > 0 && x < LongRange(b)
    ensures fresh(a) && a.Length == 5 && a[0] == 0
    ensures Digital(a[..], b) && Val(a[..][1..], b) == x
  {
    hide Val, Pow;
    PowSmall(b);
    MulPositive(b, b);
    var hi, lo := x / (b * b), x % (b * b);
    WordSplit(x, b);
    WordDigits(hi, b);
    WordDigits(lo, b);
    a := new nat[5](_ => 0);
    a[1], a[2], a[3], a[4] := HHalf(hi, b), LHalf(hi, b), HHalf(lo, b), LHalf(lo, b);
    JoinWords(HHalf(hi, b), LHalf(hi, b), HHalf(lo, b), LHalf(lo, b), b);
    assert a[..][1..] == [a[1], a[2], a[3], a[4]];
  }

  lemma WordSplit(x: nat, b: nat)
    requires b > 0 && x < b * b * (b * b)
    ensures b * b > 0
    ensures x == (x / (b * b)) * (b * b) + x % (b * b) && 0 <= x / (b * b) < b * b && 0 <= x % (b * b)
  {
    MulPositive(b, b);
    var w := b * b;
    DivModEquation(x, w);
    MulCancelLess(x / w, w, w);
    MulCancelLess(-1, x / w, w);
  }

  lemma JoinWords(d1: nat, d2: nat, d3: nat, d4: nat, b: nat)
    ensures Val([d1, d2, d3, d4], b) == Val([d1, d2], b) * (b * b) + Val([d3, d4], b)
  {
    hide Val;
    assert [d1, d2, d3, d4] == [d1, d2] + [d3, d4];
    ValConcat([d1, d2], [d3, d4], b);
    PowSmall(b);
  }

  /** Reading the result back through the union: two COMBINEd words make the long long. */
  method ReadDigits(a: array<nat>, b: nat) returns (x: nat)
    requires IsBase(b) && a.Length == 5 && Digital(a[..], b)
    ensures x == Val(a[..][1..], b)
  {
    hide Val;
    var hi, lo := Combine(a[1], a[2], b), Combine(a[3], a[4], b);
    x := hi * (b * b) + lo;
    CombineValue(a[1], a[2], b);
    CombineValue(a[3], a[4], b);
    ValTwo(a[1], a[2], b);
    ValTwo(a[3], a[4], b);
    JoinWords(a[1], a[2], a[3], a[4], b);
    assert a[..][1..] == [a[1], a[2], a[3], a[4]];
  }

  // ---------------------------------------------------------------- one-digit divisor

  /** One step of short division: remainder and next digit give a quotient digit that fits. */
  lemma ShortStep(r: nat, x: nat, t: nat, b: nat)
    requires IsBase(b) && 0 < t < b && r < t && x < b
    ensures var w := Combine(r, x, b);
      w == r * b + x && LHalf(w / t, b) == w / t < b && w % t < t && (w / t) * t + w % t == r * b + x
  {
    hide Combine;
    var w := Combine(r, x, b);
    assert w == r * b + x && w < b * t by {
      CombineValue(r, x, b);
      MulLeft(b, r + 1, t);
    }
    QuotientBelow(w, t, b);
    ModSmall(w / t, b);
  }

  lemma ShortAlgebra(q: int, r: int, u: int, x: int, q': int, r': int, t: int, b: int)
    requires q * t + r == u && q' * t + r' == r * b + x
    ensures (q * b + q') * t + r' == u * b + x
  {
    assert (q * t + r) * b == u * b;
  }

  /** Exercise 16: dividing by a single digit, most significant digit first. */
  method DivideByDigit(u: array<nat>, t: nat, b: nat) returns (q: nat, rem: nat)
    requires IsBase(b) && u.Length == 5 && Digital(u[..], b) && 0 < t < b
    ensures q == Val(u[..][1..], b) / t && rem == Val(u[..][1..], b) % t
  {
    hide Val;
    BaseEven(b);
    ZeroDigit(u[1], b);
    ShortStep(0, u[1], t, b);
    var q1 := LHalf(u[1] / t, b);
    ShortStep(u[1] % t, u[2], t, b);
    var rbj := Combine(u[1] % t, u[2], b);
    var q2 := LHalf(rbj / t, b);
    ghost var r2 := rbj % t;
    ShortStep(rbj % t, u[3], t, b);
    rbj := Combine(rbj % t, u[3], b);
    var q3 := LHalf(rbj / t, b);
    ghost var r3 := rbj % t;
    ShortStep(rbj % t, u[4], t, b);
    rbj := Combine(rbj % t, u[4], b);
    var q4 := LHalf(rbj / t, b);
    rem := rbj % t;
    var d := new nat[] [0, q1, q2, q3, q4];
    assert Digital(d[..], b);
    q := ReadDigits(d, b);
    assert u[..][1..] == [u[1], u[2], u[3], u[4]] && d[..][1..] == [q1, q2, q3, q4];
    ShortDivision([q1, q2, q3, q4], [u[1], u[2], u[3], u[4]], [u[1] % t, r2, r3, rem], t, b);
    DivModUnique(Val(u[..][1..], b), q, rem, t);
  }

  lemma ZeroDigit(x: nat, b: nat)
    requires IsBase(b) && x < b
    ensures Combine(0, x, b) == x
  {
    BaseEven(b);
    CombineValue(0, x, b);
  }

  /** Short division: the digit equations add up to the division equation. */
  lemma {:induction false} ShortDivision(q: seq<nat>, u: seq<nat>, r: seq<nat>, t: nat, b: nat)
    requires |q| == |u| == |r| > 0
    requires q[0] * t + r[0] == u[0]
    requires forall k :: 0 < k < |q| ==> q[k] * t + r[k] == r[k - 1] * b + u[k]
    ensures Val(q, b) * t + r[|r| - 1] == Val(u, b)
  {
    var n := |q| - 1;
    if n == 0 {
      assert q == [q[0]] && u == [u[0]];
      ValOne(q[0], b);
      ValOne(u[0], b);
    } else {
      ShortDivision(q[..n], u[..n], r[..n], t, b);
      ShortAlgebra(Val(q[..n], b), r[n - 1], Val(u[..n], b), u[n], q[n], r[n], t, b);
    }
  }

  // ---------------------------------------------------------------- Program D, the loop on j

  /**
   * Loop invariant of D7: the first j quotient digits account for all of the dividend but the digits
   * from u[j] on, whose leading n digits are below the divisor.
   */
  ghost predicate Dividing(u: seq<nat>, uo: nat, q: seq<nat>, qo: nat, V: nat, N: nat, j: nat, m: nat, n: nat, b: nat)
    requires j <= m + 1 && uo + m + n + 1 == |u| && qo + m + 1 == |q|
  {
    N == Val(q[qo..qo + j], b) * V * Pow(b, m + 1 - j) + Val(u[uo + j..], b) &&
    Val(u[uo + j..uo + j + n], b) < V &&
    forall k :: uo <= k < uo + j ==> u[k] == 0
  }

  lemma DividingStart(u: seq<nat>, uo: nat, q: seq<nat>, qo: nat, V: nat, m: nat, n: nat, b: nat)
    requires uo + m + n + 1 == |u| && qo + m + 1 == |q|
    requires Val(u[uo..uo + n], b) < V
    ensures Dividing(u, uo, q, qo, V, Val(u[uo..], b), 0, m, n, b)
  {
    hide Pow;
    assert q[qo..qo + 0] == [];
    assert 0 * V * Pow(b, m + 1) == 0;
  }

  /** The next window of n+1 digits is below V*b, which is what one quotient digit needs. */
  lemma NextWindow(u: seq<nat>, j: nat, n: nat, V: nat, b: nat)
    requires j + n < |u| && Digital(u, b) && Val(u[j..j + n], b) < V
    ensures Val(u[j..j + n + 1], b) < V * b
  {
    hide Val;
    assert u[j..j + n + 1] == u[j..j + n] + [u[j + n]];
    ValSnoc(u[j..j + n], u[j + n], b);
    HornerBound(Val(u[j..j + n], b), u[j + n], V, b);
  }

  lemma DividingStep(us: seq<nat>, u: seq<nat>, uo: nat, qs: seq<nat>, q: seq<nat>, qo: nat, d: nat, V: nat, N: nat,
                     j: nat, m: nat, n: nat, b: nat)
    requires b > 0 && j <= m && uo + m + n + 1 == |u| == |us| && qo + m + 1 == |q| == |qs| && Digital(u, b)
    requires 0 < V < Pow(b, n)
    requires Dividing(us, uo, qs, qo, V, N, j, m, n, b)
    requires Touched(u, us, uo + j, -1, n) && q == qs[qo + j := d]
    requires d == Val(us[uo + j..uo + j + n + 1], b) / V
    requires Val(u[uo + j..uo + j + n + 1], b) == Val(us[uo + j..uo + j + n + 1], b) % V
    ensures Dividing(u, uo, q, qo, V, N, j + 1, m, n, b)
  {
    hide Val, Pow;
    var at := uo + j;
    var W, R, p := Val(us[at..at + n + 1], b), Val(u[at..at + n + 1], b), Pow(b, m - j);
    var tail := us[at + n + 1..];
    assert us[at..] == us[at..at + n + 1] + tail && u[at..] == u[at..at + n + 1] + tail;
    ValConcat(us[at..at + n + 1], tail, b);
    ValConcat(u[at..at + n + 1], tail, b);
    DivModEquation(W, V);
    DropLeadingZero(u, at, n, b);
    assert q[qo..qo + j + 1] == qs[qo..qo + j] + [d];
    ValSnoc(qs[qo..qo + j], d, b);
    PowStep(b, m - j);
    QuotientAlgebra(N, Val(qs[qo..qo + j], b), V, p, b, W, Val(tail, b), d, R);
    assert m + 1 - (j + 1) == m - j;
  }

  lemma PowStep(b: nat, e: nat)
    ensures Pow(b, e + 1) == b * Pow(b, e)
  {
  }

  lemma DropLeadingZero(u: seq<nat>, at: nat, n: nat, b: nat)
    requires b > 0 && at + n < |u| && Digital(u, b)
    requires Val(u[at..at + n + 1], b) < Pow(b, n)
    ensures u[at] == 0
    ensures Val(u[at + 1..at + 1 + n], b) == Val(u[at..at + n + 1], b)
    ensures Val(u[at + 1..], b) == Val(u[at..], b)
  {
    hide Val, Pow;
    var s := u[at + 1..at + 1 + n];
    assert u[at..at + n + 1] == [u[at]] + s;
    LeadingZero(u[at], s, b);
    assert u[at..] == [0] + u[at + 1..];
    ValCons(0, u[at + 1..], b);
    assert 0 * Pow(b, |u[at + 1..]|) == 0;
  }

  lemma QuotientAlgebra(N: int, Q: int, V: int, p: int, b: int, W: int, T: int, d: int, R: int)
    requires N == Q * V * (b * p) + (W * p + T)
    requires W == d * V + R
    ensures N == (Q * b + d) * V * p + (R * p + T)
  {
    assert (Q * b + d) * V == Q * V * b + d * V;
    assert Q * V * (b * p) == Q * V * b * p by { MulAssoc(Q * V, b, p); }
    assert (d * V + R) * p == d * V * p + R * p;
  }

  lemma DividingDone(u: seq<nat>, uo: nat, q: seq<nat>, qo: nat, V: nat, N: nat, m: nat, n: nat, b: nat)
    requires uo + m + n + 1 == |u| && qo + m + 1 == |q|
    requires Dividing(u, uo, q, qo, V, N, m + 1, m, n, b)
    ensures V > 0 && Val(q[qo..], b) == N / V && Val(u[uo..], b) == N % V
  {
    hide Val;
    assert q[qo..qo + m + 1] == q[qo..] && u[uo + m + 1..uo + m + 1 + n] == u[uo + m + 1..];
    assert u[uo..] == u[uo..uo + m + 1] + u[uo + m + 1..];
    ValConcat(u[uo..uo + m + 1], u[uo + m + 1..], b);
    ValZeros(u[uo..uo + m + 1], b);
    DivModUnique(N, Val(q[qo..], b), Val(u[uo + m + 1..], b), V);
  }

  /** D2 to D7: leaves the quotient in q[qo..] and the (still normalised) remainder in u[uo..]. */
  method DivideDigits(u: array<nat>, uo: nat, v: array<nat>, vo: nat, q: array<nat>, qo: nat, m: nat, n: nat, b: nat)
    requires IsBase(b) && u != v && q != u && q != v && n >= 2
    requires uo + m + n + 1 == u.Length && vo + n + 1 == v.Length && qo + m + 1 == q.Length
    requires Digital(u[..], b) && Digital(v[..], b) && Digital(q[..], b)
    requires b <= 2 * v[vo + 1]
    requires Val(u[..][uo..uo + n], b) < Val(v[..][vo + 1..], b)
    modifies u, q
    ensures Digital(u[..], b) && Digital(q[..], b)
    ensures u[..][..uo] == old(u[..][..uo]) && q[..][..qo] == old(q[..][..qo])
    ensures forall k :: uo <= k <= uo + m ==> u[k] == 0
    ensures Val(v[..][vo + 1..], b) > 0
    ensures Val(q[..][qo..], b) == Val(old(u[..])[uo..], b) / Val(v[..][vo + 1..], b)
    ensures Val(u[..][uo..], b) == Val(old(u[..])[uo..], b) % Val(v[..][vo + 1..], b)
  {
    hide Val, Pow, Dividing;
    BaseEven(b);
    ghost var u0, N := u[..], Val(u[..][uo..], b);
    ghost var V := Val(Digits1(v[..], vo, n), b);
    assert Digits1(v[..], vo, n) == v[..][vo + 1..];
    ValBound(Digits1(v[..], vo, n), b);
    DividingStart(u[..], uo, q[..], qo, V, m, n, b);
    var j := 0;
    while j <= m
      invariant 0 <= j <= m + 1
      invariant Digital(u[..], b) && Digital(q[..], b)
      invariant u[..][..uo] == u0[..uo] && q[..][..qo] == old(q[..][..qo])
      invariant Dividing(u[..], uo, q[..], qo, V, N, j, m, n, b)
    {
      ghost var us, qs := u[..], q[..];
      WindowReady(us, uo, qs, qo, V, N, j, m, n, b);
      q[qo + j] := QuotientDigit(u, uo + j, v, vo, n, b);
      DividingStep(us, u[..], uo, qs, q[..], qo, q[qo + j], V, N, j, m, n, b);
      j := j + 1;
    }
    LeadingZeros(u[..], uo, q[..], qo, V, N, m, n, b);
    DividingDone(u[..], uo, q[..], qo, V, N, m, n, b);
  }

  lemma WindowReady(u: seq<nat>, uo: nat, q: seq<nat>, qo: nat, V: nat, N: nat, j: nat, m: nat, n: nat, b: nat)
    requires j <= m && uo + m + n + 1 == |u| && qo + m + 1 == |q| && Digital(u, b)
    requires Dividing(u, uo, q, qo, V, N, j, m, n, b)
    ensures Val(u[uo + j..uo + j + n + 1], b) < V * b
  {
    NextWindow(u, uo + j, n, V, b);
  }

  lemma LeadingZeros(u: seq<nat>, uo: nat, q: seq<nat>, qo: nat, V: nat, N: nat, m: nat, n: nat, b: nat)
    requires uo + m + n + 1 == |u| && qo + m + 1 == |q|
    requires Dividing(u, uo, q, qo, V, N, m + 1, m, n, b)
    ensures forall k :: uo <= k <= uo + m ==> u[k] == 0
  {
  }

  // ---------------------------------------------------------------- D1: normalisation

  /** D1: the shift that brings the leading divisor digit up to half the base. */
  method NormalisingShift(v1: nat, h: nat) returns (d: nat)
    requires h > 0 && 0 < v1 < Pow(2, h)
    ensures d < h && v1 * Pow(2, d) < Pow(2, h) <= 2 * (v1 * Pow(2, d))
  {
    var b := Pow(2, h);
    BaseEven(b);
    d := 0;
    var t := v1;
    while t < b / 2
      invariant t == v1 * Pow(2, d) && 0 < t < b
      decreases b - t
    {
      MulAssoc(v1, 2, Pow(2, d));
      t := t * 2;
      d := d + 1;
    }
    ShiftBelowWord(v1, d, h);
  }

  lemma ShiftBelowWord(v1: nat, d: nat, h: nat)
    requires v1 > 0 && v1 * Pow(2, d) < Pow(2, h)
    ensures d < h
  {
    hide Pow;
    if d >= h {
      PowAdd(2, h, d - h);
      PowPositive(2, d - h);
      PowPositive(2, h);
      GrowingProduct(v1, Pow(2, h), Pow(2, d - h));
    }
  }

  lemma GrowingProduct(x: nat, p: nat, r: nat)
    requires x > 0 && r > 0
    ensures x * (p * r) >= p
  {
    MulLeft(p, 1, r);
    MulLeft(p * r, 1, x);
  }

  /** Shifting by the normalising amount loses no divisor bits and leaves a large leading digit. */
  lemma DivisorFits(v: seq<nat>, d: nat, h: nat)
    requires h > 0 && |v| > 0 && Digital(v, Pow(2, h)) && d < h
    requires v[0] * Pow(2, d) < Pow(2, h)
    ensures Val(v, Pow(2, h)) * Pow(2, d) < Pow(Pow(2, h), |v|)
    ensures v[0] * Pow(2, d) * Pow(Pow(2, h), |v| - 1) <= Val(v, Pow(2, h)) * Pow(2, d)
  {
    hide Val, Pow;
    var b, lo, hi := Pow(2, h), Pow(2, d), Pow(2, h - d);
    var p, r := Pow(b, |v| - 1), Val(v[1..], b);
    ShiftFactors(d, h);
    assert Val(v, b) == v[0] * p + r && r < p by {
      assert v == [v[0]] + v[1..];
      ValCons(v[0], v[1..], b);
      ValBound(v[1..], b);
    }
    MulCancelLess(v[0], hi, lo);
    PowStep(b, |v| - 1);
    FitAlgebra(v[0], r, p, lo, hi, b);
  }

  lemma FitAlgebra(x: nat, r: nat, p: nat, lo: nat, hi: nat, b: nat)
    requires x < hi && r < p && lo > 0 && lo * hi == b
    ensures (x * p + r) * lo < b * p
    ensures x * lo * p <= (x * p + r) * lo
  {
    var y := x * p + r;
    assert y < hi * p by {
      Distribute(p, x, 1);
      MulLeft(p, x + 1, hi);
    }
    assert y * lo < b * p by {
      MulLeft(lo, y + 1, hi * p);
      MulAssoc(lo, hi, p);
    }
    assert x * lo * p <= y * lo by {
      MulLeft(lo, x * p, y);
      MulAssoc(lo, x, p);
    }
  }

  /** Reading the leading digit off the shifted value. */
  lemma LeadingDigitLarge(v: seq<nat>, t: nat, b: nat)
    requires b > 0 && |v| > 0 && Digital(v, b) && t * Pow(b, |v| - 1) <= Val(v, b)
    ensures t <= v[0]
  {
    hide Val, Pow;
    assert v == [v[0]] + v[1..];
    ValCons(v[0], v[1..], b);
    ValBound(v[1..], b);
    PowPositive(b, |v| - 1);
    Distribute(Pow(b, |v| - 1), v[0], 1);
    MulCancelLess(t, v[0] + 1, Pow(b, |v| - 1));
  }

  /** The leading n digits of a dividend below V*b^(m+1) are below V. */
  lemma HighPartSmall(u: seq<nat>, n: nat, V: nat, b: nat)
    requires b > 0 && n <= |u| && Digital(u, b) && Val(u, b) < V * Pow(b, |u| - n)
    ensures Val(u[..n], b) < V
  {
    hide Val, Pow;
    assert u == u[..n] + u[n..];
    ValConcat(u[..n], u[n..], b);
    PowPositive(b, |u| - n);
    MulCancelLess(Val(u[..n], b), V, Pow(b, |u| - n));
  }

  /** The dividend is below b^(m+1) times the divisor, before and after scaling both. */
  lemma DividendBelow(ull: nat, vll: nat, v1: nat, lo: nat, m: nat, n: nat, b: nat)
    requires n > 0 && 0 < lo < b && ull < Pow(b, m + n)
    requires 0 < v1 && v1 * Pow(b, n - 1) <= vll
    ensures ull * lo < vll * lo * Pow(b, m + 1)
    ensures ull * lo < Pow(b, m + n + 1)
  {
    hide Pow;
    var p, r := Pow(b, n - 1), Pow(b, m + 1);
    PowPositive(b, n - 1);
    PowPositive(b, m + 1);
    PowAdd(b, n - 1, m + 1);
    PowStep(b, m + n);
    MulLeft(p, 1, v1);
    BelowAlgebra(ull, vll, p, r, lo, b);
  }

  lemma BelowAlgebra(ull: nat, vll: nat, p: nat, r: nat, lo: nat, b: nat)
    requires ull < p * r && p <= vll && 0 < lo < b && r > 0
    ensures ull * lo < vll * lo * r
    ensures ull * lo < b * (p * r)
  {
    MulLeft(r, p, vll);
    MulLeft(lo, ull + 1, vll * r);
    assert lo * (vll * r) == vll * lo * r by { MulAssoc(lo, vll, r); }
    MulLeft(ull, lo, b);
    MulLeft(b, ull + 1, p * r);
  }

  /** Scaling dividend and divisor alike keeps the quotient and scales the remainder. */
  lemma ScaledDivision(u: nat, v: nat, lo: nat)
    requires v > 0 && lo > 0
    ensures v * lo > 0 && (u * lo) / (v * lo) == u / v && ((u * lo) % (v * lo)) / lo == u % v
  {
    var q, r := u / v, u % v;
    DivModEquation(u, v);
    MulPositive(v, lo);
    MulLeft(lo, r + 1, v);
    ScaleAlgebra(u, q, v, r, lo);
    DivModUnique(u * lo, q, r * lo, v * lo);
    DivModUnique(r * lo, r, 0, lo);
  }

  lemma ScaleAlgebra(u: int, q: int, v: int, r: int, lo: int)
    requires u == q * v + r
    ensures u * lo == q * (v * lo) + r * lo
  {
    MulAssoc(q, v, lo);
  }

  // ---------------------------------------------------------------- the whole of Program D

  /** Leading zero digits do not change a number. */
  lemma SkipZeros(s: seq<nat>, at: nat, b: nat)
    requires at <= |s| && forall k :: 0 <= k < at ==> s[k] == 0
    ensures Val(s, b) == Val(s[at..], b)
  {
    hide Val;
    assert s == s[..at] + s[at..];
    ValConcat(s[..at], s[at..], b);
    ValZeros(s[..at], b);
    assert 0 * Pow(b, |s[at..]|) == 0;
  }

  /** D1 for both operands: shifts them in place so that the divisor's leading digit is at least half the base. */
  method Normalise(u: array<nat>, uo: nat, v: array<nat>, vo: nat, m: nat, n: nat, h: nat) returns (d: nat)
    requires h > 0 && u != v && n >= 2 && uo + m + n + 1 == u.Length && vo + n + 1 == v.Length
    requires Digital(u[..], Pow(2, h)) && Digital(v[..], Pow(2, h)) && u[uo] == 0 && v[vo + 1] != 0
    modifies u, v
    ensures d < h && Digital(u[..], Pow(2, h)) && Digital(v[..], Pow(2, h))
    ensures u[..][..uo] == old(u[..][..uo])
    ensures Val(u[..][uo..], Pow(2, h)) == Val(old(u[..])[uo..], Pow(2, h)) * Pow(2, d)
    ensures Val(v[..][vo + 1..], Pow(2, h)) == Val(old(v[..])[vo + 1..], Pow(2, h)) * Pow(2, d)
    ensures Pow(2, h) <= 2 * v[vo + 1]
    ensures Val(u[..][uo..uo + n], Pow(2, h)) < Val(v[..][vo + 1..], Pow(2, h))
  {
    var b := Pow(2, h);
    assert IsBase(b);
    hide Val, Pow;
    BaseEven(b);
    d := NormalisingShift(v[vo + 1], h);
    ghost var lo, us, vs := Pow(2, d), u[..][uo..], v[..][vo + 1..];
    ShiftRoom(us, vs, d, m, n, h);
    ShiftOperands(u, uo, v, vo + 1, d, h);
    LeadingDigitLarge(v[..][vo + 1..], vs[0] * lo, b);
    assert u[..][uo..][..n] == u[..][uo..uo + n];
    HighPartSmall(u[..][uo..], n, Val(vs, b) * lo, b);
  }

  /** Both operands shifted, unless there is nothing to shift. */
  method ShiftOperands(u: array<nat>, uo: nat, v: array<nat>, at: nat, d: nat, h: nat)
    requires h > 0 && d <= h && u != v && uo < u.Length && at < v.Length
    requires Digital(u[..], Pow(2, h)) && Digital(v[..], Pow(2, h))
    requires Val(u[..][uo..], Pow(2, h)) * Pow(2, d) < Pow(Pow(2, h), u.Length - uo)
    requires Val(v[..][at..], Pow(2, h)) * Pow(2, d) < Pow(Pow(2, h), v.Length - at)
    modifies u, v
    ensures Digital(u[..], Pow(2, h)) && Digital(v[..], Pow(2, h)) && u[..][..uo] == old(u[..][..uo])
    ensures Val(u[..][uo..], Pow(2, h)) == Val(old(u[..])[uo..], Pow(2, h)) * Pow(2, d)
    ensures Val(v[..][at..], Pow(2, h)) == Val(old(v[..])[at..], Pow(2, h)) * Pow(2, d)
  {
    hide Val, Pow, Digital;
    if d > 0 {
      ShlExact(u, uo, d, h);
      ShlExact(v, at, d, h);
    } else {
      PowZero(2);
    }
  }

  /** shl on the digits from at to the end, when no bits fall out. */
  method ShlExact(p: array<nat>, at: nat, d: nat, h: nat)
    requires h > 0 && d <= h && at < p.Length && Digital(p[..], Pow(2, h))
    requires Val(p[..][at..], Pow(2, h)) * Pow(2, d) < Pow(Pow(2, h), p.Length - at)
    modifies p
    ensures Digital(p[..], Pow(2, h)) && p[..][..at] == old(p[..][..at])
    ensures Val(p[..][at..], Pow(2, h)) == Val(old(p[..])[at..], Pow(2, h)) * Pow(2, d)
  {
    hide Val, Pow;
    ghost var old_ := p[..];
    var len := p.Length - at - 1;
    Shl(p, at, len, d, h);
    assert p[..][at..at + len + 1] == p[..][at..] && old_[at..at + len + 1] == old_[at..];
    ModSmall(Val(old_[at..], Pow(2, h)) * Pow(2, d), Pow(Pow(2, h), len + 1));
  }

  lemma PowZero(b: nat)
    ensures Pow(b, 0) == 1
  {
  }

  /** Room for the normalising shift: neither operand loses a bit. */
  lemma ShiftRoom(us: seq<nat>, vs: seq<nat>, d: nat, m: nat, n: nat, h: nat)
    requires h > 0 && n >= 2 && |us| == m + n + 1 && |vs| == n && d < h
    requires Digital(us, Pow(2, h)) && Digital(vs, Pow(2, h)) && us[0] == 0 && vs[0] != 0
    requires vs[0] * Pow(2, d) < Pow(2, h)
    ensures Val(us, Pow(2, h)) * Pow(2, d) < Pow(Pow(2, h), m + n + 1)
    ensures Val(us, Pow(2, h)) * Pow(2, d) < Val(vs, Pow(2, h)) * Pow(2, d) * Pow(Pow(2, h), m + 1)
    ensures Val(vs, Pow(2, h)) * Pow(2, d) < Pow(Pow(2, h), n)
    ensures vs[0] * Pow(2, d) * Pow(Pow(2, h), n - 1) <= Val(vs, Pow(2, h)) * Pow(2, d)
  {
    hide Val, Pow;
    var b, lo := Pow(2, h), Pow(2, d);
    PowPositive(2, d);
    PowPositive(2, h);
    DivisorFits(vs, d, h);
    assert us == [0] + us[1..] && vs == [vs[0]] + vs[1..];
    LeadingZero(0, us[1..], b);
    ValCons(vs[0], vs[1..], b);
    MulLeft(lo, 1, vs[0]);
    DividendBelow(Val(us, b), Val(vs, b), vs[0], lo, m, n, b);
  }

  /** A dividend no smaller than the divisor has at least as many digits. */
  lemma EnoughDigits(u: seq<nat>, v: seq<nat>, uo: nat, vo: nat, n: nat, b: nat)
    requires b > 0 && |u| == |v| == 5 && 2 <= n <= 4 && uo == vo == 4 - n
    requires Digital(u, b) && Digital(v, b) && v[vo + 1] != 0
    requires forall k :: 0 <= k <= uo ==> u[k] == 0
    requires Val(v[vo + 1..], b) <= Val(u[1..], b)
    ensures u[uo + 1] != 0
  {
    hide Val, Pow;
    if u[uo + 1] == 0 {
      SkipZeros(u, 1, b);
      SkipZeros(u, uo + 2, b);
      ValBound(u[uo + 2..], b);
      assert v[vo + 1..] == [v[vo + 1]] + v[vo + 2..];
      LeadingZero(v[vo + 1], v[vo + 2..], b);
      assert false;
    }
  }

  lemma RemainderDigits(u: seq<nat>, uo: nat, m: nat, n: nat, b: nat)
    requires |u| == uo + m + n + 1 && forall k :: 0 <= k <= uo + m ==> u[k] == 0
    requires uo + m < |u|
    ensures Val(u[1..], b) == Val(u[uo..], b) == Val(u[uo + m..], b)
  {
    hide Val;
    SkipZeros(u, 1, b);
    SkipZeros(u, uo, b);
    SkipZeros(u, uo + m, b);
  }

  lemma ProductPositive(x: nat, y: nat)
    requires x * y > 0
    ensures x > 0
  {
  }

  /** Moves u past the dividend's leading zeros; m + n digits are left. */
  method DividendDigits(u: array<nat>, v: array<nat>, vo: nat, n: nat, b: nat) returns (m: nat, uo: nat)
    requires b > 0 && u.Length == v.Length == 5 && 2 <= n <= 4 && vo == 4 - n
    requires Digital(u[..], b) && Digital(v[..], b) && u[0] == 0 && v[vo + 1] != 0
    requires Val(v[..][vo + 1..], b) <= Val(u[..][1..], b)
    ensures uo + m + n == 4 && forall k :: 0 <= k <= uo ==> u[k] == 0
    ensures Val(u[..][uo..], b) == Val(u[..][1..], b)
  {
    hide Val, Pow;
    m, uo := 4 - n, 0;
    while u[uo + 1] == 0
      invariant uo + m + n == 4
      invariant forall k :: 0 <= k <= uo ==> u[k] == 0
      decreases m
    {
      if m == 0 {
        EnoughDigits(u[..], v[..], uo, vo, n, b);
      }
      m := m - 1;
      uo := uo + 1;
    }
    SkipZeros(u[..], uo, b);
    SkipZeros(u[..], 1, b);
  }

  /** Undoes the normalising shift on the remainder left in place and reads it back. */
  method ReadRemainder(u: array<nat>, uo: nat, m: nat, n: nat, d: nat, h: nat) returns (r: nat)
    requires h > 0 && d <= h && u.Length == 5 && uo + m + n == 4 && n > 0
    requires Digital(u[..], Pow(2, h)) && forall k :: 0 <= k <= uo + m ==> u[k] == 0
    modifies u
    ensures Pow(2, d) > 0 && r == Val(old(u[..])[uo..], Pow(2, h)) / Pow(2, d)
  {
    ghost var b := Pow(2, h);
    assert IsBase(b);
    hide Val, Pow;
    PowPositive(2, d);
    RemainderDigits(u[..], uo, m, n, b);
    if d > 0 {
      ShiftRemainder(u, uo + m, n, d, h);
      assert u[..][uo + m..uo + m + n + 1] == u[..][uo + m..];
      assert old(u[..])[uo + m..uo + m + n + 1] == old(u[..])[uo + m..];
      RemainderDigits(u[..], uo, m, n, b);
    } else {
      PowZero(2);
      DivModUnique(Val(u[..][1..], b), Val(u[..][1..], b), 0, 1);
    }
    r := ReadDigits(u, Pow(2, h));
  }

  /** Program D on the dividend digits from u[uo] on, leaving a remainder still shifted left by d. */
  method NormaliseAndDivide(u: array<nat>, uo: nat, v: array<nat>, vo: nat, q: array<nat>, m: nat, n: nat, h: nat)
    returns (d: nat)
    requires h > 0 && u != v && q != u && q != v && u.Length == v.Length == q.Length == 5
    requires n >= 2 && uo + m + n == 4 && vo == 4 - n
    requires Digital(u[..], Pow(2, h)) && Digital(v[..], Pow(2, h)) && Digital(q[..], Pow(2, h))
    requires v[vo + 1] != 0 && forall k :: 0 <= k <= uo ==> u[k] == 0
    requires forall k :: 0 <= k < 4 - m ==> q[k] == 0
    modifies u, v, q
    ensures d < h && Pow(2, d) > 0 && Digital(u[..], Pow(2, h)) && Digital(q[..], Pow(2, h))
    ensures forall k :: 0 <= k < 4 - m ==> q[k] == 0
    ensures forall k :: 0 <= k <= uo + m ==> u[k] == 0
    ensures Val(old(v[..])[vo + 1..], Pow(2, h)) > 0
    ensures Val(q[..][4 - m..], Pow(2, h)) == Val(old(u[..])[uo..], Pow(2, h)) / Val(old(v[..])[vo + 1..], Pow(2, h))
    ensures Val(u[..][uo..], Pow(2, h)) / Pow(2, d) ==
      Val(old(u[..])[uo..], Pow(2, h)) % Val(old(v[..])[vo + 1..], Pow(2, h))
  {
    var b := Pow(2, h);
    assert IsBase(b);
    hide Val, Pow;
    BaseEven(b);
    ghost var ull, vll := Val(u[..][uo..], b), Val(v[..][vo + 1..], b);
    d := Normalise(u, uo, v, vo, m, n, h);
    ghost var uz, qz := u[..][..uo], q[..][..4 - m];
    DivideDigits(u, uo, v, vo, q, 4 - m, m, n, b);
    PowPositive(2, d);
    ProductPositive(vll, Pow(2, d));
    ScaledDivision(ull, vll, Pow(2, d));
    assert forall k :: 0 <= k < uo ==> u[k] == uz[k];
    assert forall k :: 0 <= k < 4 - m ==> q[k] == qz[k];
  }

  /** The Program D path of __qdivrem: the divisor has n >= 2 digits, v[vo+1..]. */
  method LongDivide(u: array<nat>, v: array<nat>, vo: nat, n: nat, wantRem: bool, h: nat)
    returns (quot: nat, rem: Option<nat>)
    requires h > 0 && u != v && u.Length == v.Length == 5 && 2 <= n <= 4 && vo == 4 - n
    requires Digital(u[..], Pow(2, h)) && Digital(v[..], Pow(2, h)) && u[0] == 0 && v[vo + 1] != 0
    requires Val(v[..][vo + 1..], Pow(2, h)) <= Val(u[..][1..], Pow(2, h))
    modifies u, v
    ensures Val(old(v[..])[vo + 1..], Pow(2, h)) > 0
    ensures quot == Val(old(u[..])[1..], Pow(2, h)) / Val(old(v[..])[vo + 1..], Pow(2, h))
    ensures rem ==
      if wantRem then Some(Val(old(u[..])[1..], Pow(2, h)) % Val(old(v[..])[vo + 1..], Pow(2, h))) else None
  {
    var b := Pow(2, h);
    assert IsBase(b);
    hide Val, Pow;
    BaseEven(b);
    var m, uo := DividendDigits(u, v, vo, n, b);
    var q := ZeroQuotient(4 - m, b);
    var d := NormaliseAndDivide(u, uo, v, vo, q, m, n, h);
    quot := ReadDigits(q, b);
    SkipZeros(q[..][1..], 3 - m, b);
    assert q[..][1..][3 - m..] == q[..][4 - m..];
    rem := None;
    if wantRem {
      var r := ReadRemainder(u, uo, m, n, d, h);
      rem := Some(r);
    }
  }

  /** qspace, with the digits Program D will not fill set to zero. */
  method ZeroQuotient(len: nat, b: nat) returns (q: array<nat>)
    requires len <= 4 && b > 0
    ensures fresh(q) && q.Length == 5 && Digital(q[..], b) && forall k :: 0 <= k < len ==> q[k] == 0
  {
    q := new nat[5](_ => 0);
    var i := len;
    while i > 0
      invariant 0 <= i <= len && Digital(q[..], b)
      invariant forall k :: i <= k < len ==> q[k] == 0
    {
      i := i - 1;
      q[i] := 0;
    }
  }

  // ---------------------------------------------------------------- __qdivrem

  /**
   * Moves v past the divisor's leading zeros.  With one digit left the source changes plan before
   * moving the pointer again, so the digit is then v[vo+2].
   */
  method DivisorDigits(v: array<nat>, b: nat) returns (n: nat, vo: nat)
    requires b > 0 && v.Length == 5 && Digital(v[..], b) && Val(v[..][1..], b) > 0
    ensures n == 1 ==> vo == 2 && v[4] == Val(v[..][1..], b)
    ensures n != 1 ==> 2 <= n <= 4 && vo == 4 - n && v[vo + 1] != 0 && Val(v[..][vo + 1..], b) == Val(v[..][1..], b)
  {
    hide Val, Pow;
    n, vo := 4, 0;
    while v[vo + 1] == 0
      invariant 2 <= n <= 4 && vo == 4 - n
      invariant forall k :: 1 <= k <= vo ==> v[k] == 0
      decreases n
    {
      n := n - 1;
      if n == 1 {
        SkipZeros(v[..][1..], 3, b);
        assert v[..][1..][3..] == [v[4]];
        ValOne(v[4], b);
        return;
      }
      vo := vo + 1;
    }
    SkipZeros(v[..][1..], vo, b);
    assert v[..][1..][vo..] == v[..][vo + 1..];
  }

  /**
   * Division of four-digit numbers with optional remainder.  Dividing by zero traps in the source,
   * so a nonzero divisor is required.
   */
  method QDivRem(ull: nat, vll: nat, wantRem: bool, h: nat) returns (quot: nat, rem: Option<nat>)
    requires h > 0 && ull < LongRange(Pow(2, h)) && 0 < vll < LongRange(Pow(2, h))
    ensures quot == ull / vll
    ensures rem == if wantRem then Some(ull % vll) else None
  {
    if ull < vll {
      ModSmall(ull, vll);
      return 0, if wantRem then Some(ull) else None;
    }
    var b := Pow(2, h);
    assert IsBase(b);
    hide Val, Pow;
    BaseEven(b);
    var u := BreakDigits(ull, b);
    var v := BreakDigits(vll, b);
    var n, vo := DivisorDigits(v, b);
    if n == 1 {
      var t := v[vo + 2];
      var r: nat;
      quot, r := DivideByDigit(u, t, b);
      return quot, if wantRem then Some(r) else None;
    }
    quot, rem := LongDivide(u, v, vo, n, wantRem, h);
  }
}
