/**
 * Signed 64-bit arithmetic out of 32-bit words: multiplication by the three-product scheme, and
 * division and remainder on top of __qdivrem.  The digit base b is a power of two, a word holds two
 * digits (w = b*b), a long long two words.  Signed values are two's complement.
 */
module LongLong {
  import opened Arith
  import opened Digits
  import opened ProgramD
  import QDivRem

  // ---------------------------------------------------------------- two's complement

  /** m is the number of values of a two's complement type. */
  predicate InRange(a: int, m: nat) {
    -(m / 2) <= a < m / 2
  }

  function ToUnsigned(a: int, m: nat): nat
    requires m > 0
  {
    a % m
  }

  function ToSigned(u: nat, m: nat): int {
    if u < m / 2 then u else u - m
  }

  /** The number of long long values: four digits' worth, an even number. */
  lemma ModulusEven(b: nat)
    requires IsBase(b)
    ensures QDivRem.LongRange(b) == 2 * (QDivRem.LongRange(b) / 2) && QDivRem.LongRange(b) / 2 > 0
  {
    BaseEven(b);
    var k := (b / 2) * Pow(b, 3);
    PowPositive(b, 3);
    MulPositive(b / 2, Pow(b, 3));
    assert b * Pow(b, 3) == 2 * k by { MulAssoc(2, b / 2, Pow(b, 3)); }
    DivModUnique(2 * k, k, 0, 2);
  }

  /** The C unary minus on an unsigned value. */
  function Negate(u: nat, m: nat): (r: nat)
    requires u < m
    ensures r < m && (r + u) % m == 0
  {
    if u == 0 then ModSmall(0, m); 0 else DivModUnique(m, 1, 0, m); m - u
  }

  /** Converting to unsigned and negating when negative gives the magnitude, the minimum value included. */
  lemma UnsignedMagnitude(a: int, m: nat)
    requires InRange(a, m) && m == 2 * (m / 2) && m > 0
    ensures a >= 0 ==> ToUnsigned(a, m) == a
    ensures ToUnsigned(a, m) < m
    ensures a < 0 ==> Negate(ToUnsigned(a, m), m) == -a
  {
    if a >= 0 {
      ModSmall(a, m);
    } else {
      DivModUnique(a, -1, a + m, m);
    }
  }

  // ---------------------------------------------------------------- division and remainder

  function Abs(x: int): int { if x < 0 then -x else x }

  /** Division truncating toward zero, as C defines it. */
  function TruncQuotient(a: int, d: int): int
    requires d != 0
  {
    if (a < 0) != (d < 0) then -(Abs(a) / Abs(d)) else Abs(a) / Abs(d)
  }

  function TruncRemainder(a: int, d: int): int
    requires d != 0
  {
    if a < 0 then -(Abs(a) % Abs(d)) else Abs(a) % Abs(d)
  }

  /** q and r divide a by d with a remainder that is smaller than d and has the sign of a. */
  predicate TruncDivides(a: int, d: int, q: int, r: int) {
    a == d * q + r && Abs(r) < Abs(d) && (r > 0 ==> a > 0) && (r < 0 ==> a < 0)
  }

  /** The truncating quotient and remainder satisfy the division law, and nothing else does. */
  lemma TruncDivisionLaw(a: int, d: int, q: int, r: int)
    requires d != 0
    ensures TruncDivides(a, d, q, r) <==> q == TruncQuotient(a, d) && r == TruncRemainder(a, d)
  {
    var x, y := Abs(a) / Abs(d), Abs(a) % Abs(d);
    DivModEquation(Abs(a), Abs(d));
    MulCancelLess(-1, x, Abs(d));
    SignedEquation(a, d, x, y);
    if TruncDivides(a, d, q, r) {
      var q' := if (a < 0) != (d < 0) then -q else q;
      var r' := if a < 0 then -r else r;
      MagnitudeEquation(a, d, q, r);
      DivModUnique(Abs(a), q', r', Abs(d));
    }
  }

  lemma SignedEquation(a: int, d: int, x: int, y: int)
    requires Abs(a) == x * Abs(d) + y
    ensures a == d * (if (a < 0) != (d < 0) then -x else x) + (if a < 0 then -y else y)
  {
  }

  lemma MagnitudeEquation(a: int, d: int, q: int, r: int)
    requires a == d * q + r
    ensures Abs(a) == (if (a < 0) != (d < 0) then -q else q) * Abs(d) + (if a < 0 then -r else r)
  {
  }

  lemma QuotientRange(x: nat, y: nat)
    requires y > 0
    ensures 0 <= x / y <= x && (y > 1 && x > 0 ==> x / y < x) && (y == 1 ==> x / y == x)
  {
    DivModEquation(x, y);
    MulCancelLess(-1, x / y, y);
    if x / y > x {
      MulLeft(x / y, 1, y);
    } else if y > 1 && x > 0 && x / y == x {
      MulLeft(x, 2, y);
    }
  }

  /** Putting the sign back on a quotient of magnitudes. */
  lemma SignedQuotient(a: int, d: int, x: nat, m: nat)
    requires InRange(a, m) && d != 0 && m == 2 * (m / 2) && m > 0
    requires x == Abs(a) / Abs(d) && x < m
    ensures var q := ToSigned(if (a < 0) != (d < 0) then Negate(x, m) else x, m);
      InRange(q, m) &&
      if a == -(m / 2) && d == -1 then q == a == TruncQuotient(a, d) - m else q == TruncQuotient(a, d)
  {
    QuotientRange(Abs(a), Abs(d));
    assert Abs(d) == 1 <==> d == 1 || d == -1;
  }

  /** __divdi3: truncating division; the one quotient that does not fit wraps to the minimum value. */
  method DivDi3(a: int, d: int, h: nat) returns (q: int)
    requires h > 0 && d != 0
    requires InRange(a, QDivRem.LongRange(Pow(2, h))) && InRange(d, QDivRem.LongRange(Pow(2, h)))
    ensures InRange(q, QDivRem.LongRange(Pow(2, h)))
    ensures q == TruncQuotient(a, d) <==> !(a == -(QDivRem.LongRange(Pow(2, h)) / 2) && d == -1)
    ensures q != TruncQuotient(a, d) ==> q == a == TruncQuotient(a, d) - QDivRem.LongRange(Pow(2, h))
  {
    var m := QDivRem.LongRange(Pow(2, h));
    assert IsBase(Pow(2, h));
    hide Pow, QDivRem.LongRange, TruncQuotient;
    ModulusEven(Pow(2, h));
    UnsignedMagnitude(a, m);
    UnsignedMagnitude(d, m);
    var ua, ud, neg := ToUnsigned(a, m), ToUnsigned(d, m), false;
    if a < 0 {
      ua, neg := Negate(ua, m), !neg;
    }
    if d < 0 {
      ud, neg := Negate(ud, m), !neg;
    }
    hide InRange, ToSigned, ToUnsigned;
    assert ua == Abs(a) < m && ud == Abs(d) < m by {
      MagnitudeFits(a, m);
      MagnitudeFits(d, m);
    }
    var uq, _ := QDivRem.QDivRem(ua, ud, false, h);
    QuotientRange(ua, ud);
    SignedQuotient(a, d, uq, m);
    if neg {
      uq := Negate(uq, m);
    }
    q := ToSigned(uq, m);
  }

  lemma MagnitudeFits(a: int, m: nat)
    requires InRange(a, m)
    ensures Abs(a) < m
  {
  }

  /** Putting the dividend's sign on a remainder of magnitudes. */
  lemma SignedRemainder(a: int, d: int, y: nat, m: nat)
    requires InRange(d, m) && d != 0 && m == 2 * (m / 2) && m > 0
    requires y == Abs(a) % Abs(d) && y < m
    ensures ToSigned(if a < 0 then Negate(y, m) else y, m) == TruncRemainder(a, d)
  {
    DivModEquation(Abs(a), Abs(d));
  }

  /** __moddi3: the remainder takes the sign of the dividend, for every divisor but zero. */
  method ModDi3(a: int, d: int, h: nat) returns (r: int)
    requires h > 0 && d != 0
    requires InRange(a, QDivRem.LongRange(Pow(2, h))) && InRange(d, QDivRem.LongRange(Pow(2, h)))
    ensures r == TruncRemainder(a, d)
  {
    var m := QDivRem.LongRange(Pow(2, h));
    assert IsBase(Pow(2, h));
    hide Pow, QDivRem.LongRange, TruncRemainder;
    ModulusEven(Pow(2, h));
    UnsignedMagnitude(a, m);
    UnsignedMagnitude(d, m);
    var ua, ud, neg := ToUnsigned(a, m), ToUnsigned(d, m), false;
    if a < 0 {
      ua, neg := Negate(ua, m), true;
    }
    if d < 0 {
      ud := Negate(ud, m);
    }
    hide InRange, ToSigned, ToUnsigned;
    assert ua == Abs(a) < m && ud == Abs(d) < m by {
      MagnitudeFits(a, m);
      MagnitudeFits(d, m);
    }
    var _, rem := QDivRem.QDivRem(ua, ud, true, h);
    var ur := rem.value;
    DivModEquation(ua, ud);
    SignedRemainder(a, d, ur, m);
    if neg {
      ur := Negate(ur, m);
    }
    r := ToSigned(ur, m);
  }

  // ---------------------------------------------------------------- multiplication of words

  /** The low half of a word moved up: LHUP. */
  function LhUp(x: nat, b: nat): nat
    requires b > 0
  {
    Wrap(x * b, b)
  }

  /** Shifting a word left by half a word splits into HHALF and LHUP. */
  lemma HalfShift(x: nat, b: nat)
    requires b > 0 && x < b * b
    ensures x * b == HHalf(x, b) * (b * b) + LhUp(x, b)
    ensures 0 <= HHalf(x, b) < b && LhUp(x, b) < b * b
  {
    QuotientBelow(x, b, b);
    ShiftAlgebra(x, x / b, x % b, b, b);
    MulLeft(b, x % b + 1, b);
    DivModUnique(x * b, x / b, x % b * b, b * b);
  }

  /** Adding a two-word number with the carry read off the wrapped low word. */
  lemma AddWords(ph: nat, pl: nat, hi: nat, lo: nat, w: nat) returns (k: int)
    requires ph < w && pl < w && hi < w && lo < w
    ensures var pl' := (pl + lo) % w;
      var ph' := (ph + (hi + if pl' < pl then 1 else 0)) % w;
      0 <= pl' < w && 0 <= ph' < w && (pl' < pl <==> pl' < lo) &&
      ph' * w + pl' == ph * w + pl + (hi * w + lo) + k * (w * w)
  {
    var c := if pl + lo < w then 0 else 1;
    DivModUnique(pl + lo, c, pl + lo - c * w, w);
    var high := ph + (hi + c);
    DivModEquation(high, w);
    k := -(high / w);
    CarryAlgebra2(ph, pl, hi, lo, c, high / w, w);
  }

  lemma CarryAlgebra2(ph: int, pl: int, hi: int, lo: int, c: int, q: int, w: int)
    ensures (ph + hi + c - q * w) * w + (pl + lo - c * w) == ph * w + pl + (hi * w + lo) - q * (w * w)
  {
    MulAssoc(q, w, w);
  }

  /** Subtracting a two-word number with the borrow read off the wrapped low word. */
  lemma SubtractWords(ph: nat, pl: nat, hi: nat, lo: nat, w: nat) returns (k: int)
    requires ph < w && pl < w && hi < w && lo < w
    ensures var pl' := (pl - lo) % w;
      var ph' := (ph - (hi + if pl' > pl then 1 else 0)) % w;
      0 <= pl' < w && 0 <= ph' < w &&
      ph' * w + pl' == ph * w + pl - (hi * w + lo) + k * (w * w)
  {
    var c := if pl >= lo then 0 else 1;
    DivModUnique(pl - lo, -c, pl - lo + c * w, w);
    var high := ph - (hi + c);
    DivModEquation(high, w);
    k := -(high / w);
    var minusHi: int, minusLo: int, minusC: int := 0 - hi, 0 - lo, 0 - c;
    CarryAlgebra2(ph, pl, minusHi, minusLo, minusC, high / w, w);
  }

  /** The identity behind the three-product scheme, for halves of base b. */
  lemma ThreeProducts(u1: int, u0: int, v1: int, v0: int, b: int)
    ensures (u1 * b + u0) * (v1 * b + v0) ==
            u1 * v1 * (b * b) + u1 * v1 * b + (u1 - u0) * (v0 - v1) * b + u0 * v0 * b + u0 * v0
  {
    Distribute(u1 * b + u0, v1 * b, v0);
    assert (u1 * b + u0) * (v1 * b) == u1 * v1 * (b * b) + u0 * v1 * b by {
      Distribute(v1 * b, u1 * b, u0);
      ProductOfScaled(u1, v1, b);
      MulAssoc(u0, v1, b);
    }
    assert (u1 * b + u0) * v0 == u1 * v0 * b + u0 * v0 by { ScaledTimes(u1, v0, b); }
    assert (u1 - u0) * (v0 - v1) == u1 * v0 - u1 * v1 - u0 * v0 + u0 * v1;
    assert (u1 * v0 - u1 * v1 - u0 * v0 + u0 * v1) * b == u1 * v0 * b - u1 * v1 * b - u0 * v0 * b + u0 * v1 * b;
  }

  lemma ProductOfScaled(x: int, y: int, b: int)
    ensures (x * b) * (y * b) == x * y * (b * b)
  {
  }

  lemma ScaledTimes(x: int, y: int, b: int)
    ensures (x * b) * y == x * y * b
  {
  }

  /** The signed middle product is the product of the magnitudes, negated when the signs differ. */
  lemma MiddleProduct(u1: int, u0: int, v1: int, v0: int)
    ensures var ud, vd := Abs(u1 - u0), Abs(v0 - v1);
      (u1 - u0) * (v0 - v1) == if (u1 >= u0) == (v0 >= v1) then ud * vd else -(ud * vd)
  {
  }

  lemma SameResidue(x: nat, y: nat, k: int, m: nat)
    requires x < m && y < m && x == y + k * m
    ensures x == y
  {
    DivModUnique(x, k, y, m);
    ModSmall(x, m);
  }

  lemma HalvesOf(u: nat, b: nat)
    requires b > 0 && u < b * b
    ensures u == HHalf(u, b) * b + LHalf(u, b) && 0 <= HHalf(u, b) < b && 0 <= LHalf(u, b) < b
  {
    QuotientBelow(u, b, b);
  }

  lemma WordProduct(u: nat, v: nat, w: nat)
    requires u < w && v < w
    ensures 0 <= u * v < w * w
  {
    ProductPlusDigit(u, v, 0, w);
  }

  /** The accumulated sum is the product; being in range, it is the product exactly. */
  lemma Assemble(u: nat, v: nat, u1: nat, u0: nat, v1: nat, v0: nat, mid: int, p: nat, k: int, b: nat, m: nat)
    requires u == u1 * b + u0 && v == v1 * b + v0 && mid == (u1 - u0) * (v0 - v1)
    requires p == ThreeTerms(u1 * v1, mid, u0 * v0, b) + k * m
    requires u * v < m && p < m
    ensures p == u * v
  {
    ThreeProducts(u1, u0, v1, v0, b);
    SameResidue(p, u * v, k, m);
  }

  /** (high << 2N) + (high << N) + (mid << N) + (low << N) + low. */
  function ThreeTerms(high: int, mid: int, low: int, b: int): int {
    high * (b * b) + high * b + mid * b + low * b + low
  }

  /** A two-word number. */
  function Pair(hi: int, lo: int, b: int): int { hi * (b * b) + lo }

  /** The range of two words. */
  function Range(b: int): int { b * b * (b * b) }

  function Signed(x: int, neg: bool): int { if neg then -x else x }

  /** One word pair added to the accumulator, as __lmulq writes it. */
  method AddPair(ph: nat, pl: nat, hi: nat, lo: nat, b: nat) returns (prodh: nat, prodl: nat, ghost k: int)
    requires b > 0 && ph < b * b && pl < b * b && hi < b * b && lo < b * b
    ensures prodh < b * b && prodl < b * b
    ensures Pair(prodh, prodl, b) == Pair(ph, pl, b) + Pair(hi, lo, b) + k * Range(b)
  {
    k := AddWords(ph, pl, hi, lo, b * b);
    prodl := Wrap(pl + lo, b);
    prodh := Wrap(ph + (hi + if prodl < pl then 1 else 0), b);
  }

  method SubtractPair(ph: nat, pl: nat, hi: nat, lo: nat, b: nat) returns (prodh: nat, prodl: nat, ghost k: int)
    requires b > 0 && ph < b * b && pl < b * b && hi < b * b && lo < b * b
    ensures prodh < b * b && prodl < b * b
    ensures Pair(prodh, prodl, b) == Pair(ph, pl, b) - Pair(hi, lo, b) + k * Range(b)
  {
    k := SubtractWords(ph, pl, hi, lo, b * b);
    prodl := Wrap(pl - lo, b);
    prodh := Wrap(ph - (hi + if prodl > pl then 1 else 0), b);
  }

  /** The accumulation of __lmulq, exact up to a multiple of the long long range. */
  method Accumulate(high: nat, mid: nat, low: nat, neg: bool, b: nat) returns (prodh: nat, prodl: nat, ghost k: int)
    requires b > 0 && high < b * b && mid < b * b && low < b * b
    ensures prodh < b * b && prodl < b * b
    ensures Pair(prodh, prodl, b) == ThreeTerms(high, Signed(mid, neg), low, b) + k * Range(b)
  {
    hide LhUp, HHalf, Pair, Range, ThreeTerms;
    HalfBounds(high, b);
    HalfBounds(mid, b);
    HalfBounds(low, b);
    ghost var p0, p1, p2: int;
    ghost var k0: int, k1: int, k2: int, k3: int;
    prodh, prodl, k0 := AddPair(high, 0, HHalf(high, b), LhUp(high, b), b);
    p0 := Pair(prodh, prodl, b);
    if neg {
      prodh, prodl, k1 := SubtractPair(prodh, prodl, HHalf(mid, b), LhUp(mid, b), b);
    } else {
      prodh, prodl, k1 := AddPair(prodh, prodl, HHalf(mid, b), LhUp(mid, b), b);
    }
    p1 := Pair(prodh, prodl, b);
    prodh, prodl, k2 := AddPair(prodh, prodl, HHalf(low, b), LhUp(low, b), b);
    p2 := Pair(prodh, prodl, b);
    prodh, prodl, k3 := AddPair(prodh, prodl, 0, low, b);
    k := k0 + k1 + k2 + k3;
    SumUp(high, mid, neg, low, p0, p1, p2, Pair(prodh, prodl, b), k0, k1, k2, k3, b);
  }

  lemma HalfBounds(x: nat, b: nat)
    requires b > 0 && x < b * b
    ensures Pair(HHalf(x, b), LhUp(x, b), b) == x * b
    ensures HHalf(x, b) < b * b && LhUp(x, b) < b * b
  {
    HalfShift(x, b);
    MulLeft(b, 1, b);
  }

  lemma SumUp(high: int, mid: int, neg: bool, low: int, p0: int, p1: int, p2: int, p3: int,
              k0: int, k1: int, k2: int, k3: int, b: int)
    requires p0 == Pair(high, 0, b) + high * b + k0 * Range(b)
    requires p1 == p0 + Signed(mid * b, neg) + k1 * Range(b)
    requires p2 == p1 + low * b + k2 * Range(b)
    requires p3 == p2 + Pair(0, low, b) + k3 * Range(b)
    ensures p3 == ThreeTerms(high, Signed(mid, neg), low, b) + (k0 + k1 + k2 + k3) * Range(b)
  {
    hide Range;
    var m := Range(b);
    assert k0 * m + k1 * m + k2 * m + k3 * m == (k0 + k1 + k2 + k3) * m;
  }

  /** __lmulq: the exact product of two words as a high and a low word. */
  method LMulQ(u: nat, v: nat, b: nat) returns (prodh: nat, prodl: nat)
    requires b > 0 && u < b * b && v < b * b
    ensures prodh < b * b && prodl < b * b && Pair(prodh, prodl, b) == u * v
  {
    hide ThreeTerms, Range;
    HalvesOf(u, b);
    HalvesOf(v, b);
    var u1, u0, v1, v0 := HHalf(u, b), LHalf(u, b), HHalf(v, b), LHalf(v, b);
    hide HHalf, LHalf;
    var low := HalfProduct(u0, v0, b);
    if u1 == 0 && v1 == 0 {
      return 0, low;
    }
    var udiff, vdiff, neg;
    if u1 >= u0 {
      udiff, neg := u1 - u0, false;
    } else {
      udiff, neg := u0 - u1, true;
    }
    if v0 >= v1 {
      vdiff := v0 - v1;
    } else {
      vdiff, neg := v1 - v0, !neg;
    }
    var mid := HalfProduct(udiff, vdiff, b);
    var high := HalfProduct(u1, v1, b);
    ghost var k: int;
    prodh, prodl, k := Accumulate(high, mid, low, neg, b);
    Conclude(u, v, u1, u0, v1, v0, mid, neg, prodh, prodl, k, b);
  }

  /** short * short = int, in native arithmetic. */
  method HalfProduct(x: nat, y: nat, b: nat) returns (p: nat)
    requires b > 0 && x < b && y < b
    ensures p == x * y < b * b
  {
    WordProduct(x, y, b);
    WrapSmall(x * y, b);
    p := Wrap(x * y, b);
  }

  lemma Conclude(u: nat, v: nat, u1: nat, u0: nat, v1: nat, v0: nat, mid: nat, neg: bool,
                 prodh: nat, prodl: nat, k: int, b: nat)
    requires u == u1 * b + u0 && v == v1 * b + v0 && u < b * b && v < b * b
    requires mid == Abs(u1 - u0) * Abs(v0 - v1) && (neg <==> (u1 >= u0) != (v0 >= v1))
    requires prodh < b * b && prodl < b * b
    requires Pair(prodh, prodl, b) == ThreeTerms(u1 * v1, Signed(mid, neg), u0 * v0, b) + k * Range(b)
    ensures Pair(prodh, prodl, b) == u * v
  {
    hide ThreeTerms, Pair, Range, Signed;
    SignedMiddle(u1, u0, v1, v0, mid, neg);
    ProductsInRange(u, v, prodh, prodl, b);
    Assemble(u, v, u1, u0, v1, v0, Signed(mid, neg), Pair(prodh, prodl, b), k, b, Range(b));
  }

  lemma SignedMiddle(u1: int, u0: int, v1: int, v0: int, mid: int, neg: bool)
    requires mid == Abs(u1 - u0) * Abs(v0 - v1) && (neg <==> (u1 >= u0) != (v0 >= v1))
    ensures Signed(mid, neg) == (u1 - u0) * (v0 - v1)
  {
    MiddleProduct(u1, u0, v1, v0);
  }

  lemma ProductsInRange(u: nat, v: nat, hi: nat, lo: nat, b: nat)
    requires u < b * b && v < b * b && hi < b * b && lo < b * b
    ensures 0 <= u * v < Range(b) && 0 <= Pair(hi, lo, b) < Range(b)
  {
    WordProduct(u, v, b * b);
    TwoDigits(hi, lo, b * b);
  }

  // ---------------------------------------------------------------- multiplication of long longs

  lemma RangeIsLong(b: nat)
    ensures Range(b) == QDivRem.LongRange(b)
  {
    QDivRem.PowSmall(b);
  }

  /** Any integer is its wrapped word plus a multiple of the word range. */
  lemma WrapEquation(x: int, b: nat) returns (k: int)
    requires b > 0
    ensures Wrap(x, b) == x + k * (b * b) && Wrap(x, b) < b * b
  {
    MulPositive(b, b);
    DivModEquation(x, b * b);
    k := -(x / (b * b));
  }

  /** The high word of the product: a sum of wrapped words is the sum itself, up to the word range. */
  method HighWord(udiff: nat, vdiff: nat, negmid: bool, u1: nat, v1: nat, lowh: nat, lowl: nat, b: nat)
    returns (prodh: nat, ghost k: int)
    requires b > 0
    ensures prodh < b * b
    ensures prodh == u1 * v1 + Signed(udiff * vdiff, negmid) + lowl + lowh + k * (b * b)
  {
    ghost var k1: int, k2: int, k3: int, k4: int;
    k1 := WrapEquation(udiff * vdiff, b);
    var mid := Wrap(udiff * vdiff, b);
    k2 := WrapEquation(u1 * v1, b);
    var high := Wrap(u1 * v1, b);
    var negated := Signed(mid, true);
    k3 := WrapEquation(negated, b);
    var term := if negmid then Wrap(negated, b) else mid;
    k4 := WrapEquation(high + term + lowl + lowh, b);
    prodh := Wrap(high + term + lowl + lowh, b);
    k := k4 + k2 + (if negmid then k3 - k1 else k1);
    HighWordSum(udiff * vdiff, mid, negmid, u1 * v1, high, term, prodh, lowh + lowl, k1, k2, k3, k4, b * b);
  }

  lemma HighWordSum(m: int, mid: int, negmid: bool, h: int, high: int, term: int, p: int, low: int,
                    k1: int, k2: int, k3: int, k4: int, w: int)
    requires mid == m + k1 * w && high == h + k2 * w
    requires term == if negmid then -mid + k3 * w else mid
    requires p == high + term + low + k4 * w
    ensures p == h + Signed(m, negmid) + low + (k4 + k2 + (if negmid then k3 - k1 else k1)) * w
  {
    if negmid {
      assert (k4 + k2 + (k3 - k1)) * w == k4 * w + k2 * w + k3 * w - k1 * w;
    } else {
      assert (k4 + k2 + k1) * w == k4 * w + k2 * w + k1 * w;
    }
  }

  lemma DropHighTerms(u1: int, u0: int, v1: int, v0: int, mid: int, lowh: int, lowl: int, prodh: int, k: int, w: int)
    requires mid == (u1 - u0) * (v0 - v1) && lowh * w + lowl == u0 * v0
    requires prodh == u1 * v1 + mid + lowl + lowh + k * w
    ensures prodh * w + lowl == (u1 * w + u0) * (v1 * w + v0) + (k - u1 * v1 - lowh) * (w * w)
  {
    ThreeProducts(u1, u0, v1, v0, w);
    var h := u1 * v1;
    assert (h + mid + lowl + lowh + k * w) * w == h * w + mid * w + lowl * w + lowh * w + k * (w * w);
    assert (k - h - lowh) * (w * w) == k * (w * w) - h * (w * w) - lowh * (w * w);
    assert (lowh * w + lowl) * w == lowh * (w * w) + lowl * w;
  }

  /** The three-product branch of __muldi3. */
  method CombineProducts(u1: nat, u0: nat, v1: nat, v0: nat, lowh: nat, lowl: nat, b: nat)
    returns (prodh: nat, ghost k: int)
    requires b > 0 && Pair(lowh, lowl, b) == u0 * v0
    ensures prodh < b * b
    ensures Pair(prodh, lowl, b) == Pair(u1, u0, b) * Pair(v1, v0, b) + k * Range(b)
  {
    var udiff, vdiff, negmid;
    if u1 >= u0 {
      negmid, udiff := false, u1 - u0;
    } else {
      negmid, udiff := true, u0 - u1;
    }
    if v0 >= v1 {
      vdiff := v0 - v1;
    } else {
      vdiff, negmid := v1 - v0, !negmid;
    }
    hide Signed;
    ghost var k0: int;
    prodh, k0 := HighWord(udiff, vdiff, negmid, u1, v1, lowh, lowl, b);
    SignedMiddle(u1, u0, v1, v0, udiff * vdiff, negmid);
    DropHighTerms(u1, u0, v1, v0, Signed(udiff * vdiff, negmid), lowh, lowl, prodh, k0, b * b);
    k := k0 - u1 * v1 - lowh;
  }

  lemma SplitLong(u: nat, b: nat)
    requires b > 0 && u < Range(b)
    ensures b * b > 0
    ensures 0 <= u / (b * b) < b * b && 0 <= u % (b * b) < b * b && Pair(u / (b * b), u % (b * b), b) == u
  {
    MulPositive(b, b);
    QuotientBelow(u, b * b, b * b);
  }

  lemma LongResidue(x: int, hi: nat, lo: nat, k: int, b: nat)
    requires hi < b * b && lo < b * b && b > 0 && Pair(hi, lo, b) == x + k * Range(b)
    ensures Range(b) > 0 && Pair(hi, lo, b) == x % Range(b)
  {
    hide Pair;
    ProductsInRange(0, 0, hi, lo, b);
    MulPositive(b, b);
    MulPositive(b * b, b * b);
    DivModUnique(x, -k, Pair(hi, lo, b), Range(b));
  }

  /** __muldi3 on magnitudes: the product of two long longs modulo the long long range. */
  method MultiplyMagnitudes(u: nat, v: nat, b: nat) returns (prod: nat)
    requires b > 0 && u < Range(b) && v < Range(b)
    ensures Range(b) > 0 && prod == (u * v) % Range(b)
  {
    SplitLong(u, b);
    SplitLong(v, b);
    ProductsInRange(0, 0, 0, 0, b);
    var u1, u0, v1, v0 := u / (b * b), u % (b * b), v / (b * b), v % (b * b);
    var prodh, lowh, lowl;
    ghost var k: int;
    lowh, lowl := LMulQ(u0, v0, b);
    if u1 == 0 && v1 == 0 {
      prodh, k := lowh, 0;
      assert u == u0 && v == v0;
    } else {
      prodh, k := CombineProducts(u1, u0, v1, v0, lowh, lowl, b);
    }
    assert Pair(prodh, lowl, b) == u * v + k * Range(b);
    hide Range;
    LongResidue(u * v, prodh, lowl, k, b);
    prod := prodh * (b * b) + lowl;
  }

  /** Negating both a residue and the number keeps them congruent. */
  lemma NegatedResidue(x: int, r: nat, m: nat)
    requires m > 0 && r == x % m
    ensures Negate(r, m) == (-x) % m
  {
    DivModEquation(x, m);
    if r == 0 {
      DivModUnique(-x, -(x / m), 0, m);
    } else {
      var q: int := -(x / m) - 1;
      assert q * m == -(x / m) * m - m;
      DivModUnique(-x, q, m - r, m);
    }
  }

  lemma SignedProduct(x: int, y: int)
    ensures x * y == Signed(Abs(x) * Abs(y), (x < 0) != (y < 0))
  {
  }

  /** __muldi3: multiplication modulo the long long range, for all signed operands. */
  method MulDi3(x: int, y: int, h: nat) returns (r: int)
    requires h > 0
    requires InRange(x, QDivRem.LongRange(Pow(2, h))) && InRange(y, QDivRem.LongRange(Pow(2, h)))
    ensures QDivRem.LongRange(Pow(2, h)) > 0
    ensures r == ToSigned((x * y) % QDivRem.LongRange(Pow(2, h)), QDivRem.LongRange(Pow(2, h)))
  {
    var m := QDivRem.LongRange(Pow(2, h));
    assert IsBase(Pow(2, h));
    hide Pow, QDivRem.LongRange, Range;
    ModulusEven(Pow(2, h));
    RangeIsLong(Pow(2, h));
    UnsignedMagnitude(x, m);
    UnsignedMagnitude(y, m);
    MagnitudeFits(x, m);
    MagnitudeFits(y, m);
    var u, v, negall := ToUnsigned(x, m), ToUnsigned(y, m), false;
    if x < 0 {
      u, negall := Negate(u, m), true;
    }
    if y < 0 {
      v, negall := Negate(v, m), !negall;
    }
    assert u == Abs(x) && v == Abs(y);
    hide InRange, ToSigned, ToUnsigned, Abs;
    var prod := MultiplyMagnitudes(u, v, Pow(2, h));
    SignedProduct(x, y);
    NegatedResidue(u * v, prod, m);
    if negall {
      prod := Negate(prod, m);
    }
    r := ToSigned(prod, m);
  }
}
