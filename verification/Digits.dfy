/** Digit sequences, most significant digit first, in a base that is a power of two. */
module Digits {
  import opened Arith

  predicate Digital(s: seq<nat>, b: nat) {
    forall k :: 0 <= k < |s| ==> s[k] < b
  }

  /** The number a digit sequence stands for. */
  function Val(s: seq<nat>, b: nat): nat {
    if s == [] then 0 else Val(s[..|s| - 1], b) * b + s[|s| - 1]
  }

  lemma ValSnoc(s: seq<nat>, x: nat, b: nat)
    ensures Val(s + [x], b) == Val(s, b) * b + x
  {
    assert (s + [x])[..|s|] == s;
  }

  lemma {:induction false} ValConcat(s: seq<nat>, t: seq<nat>, b: nat)
    ensures Val(s + t, b) == Val(s, b) * Pow(b, |t|) + Val(t, b)
  {
    if t == [] {
      assert s + t == s;
    } else {
      var t', x := t[..|t| - 1], t[|t| - 1];
      assert t == t' + [x];
      assert s + t == (s + t') + [x];
      ValSnoc(s + t', x, b);
      ValSnoc(t', x, b);
      ValConcat(s, t', b);
      HornerShift(Val(s, b), Pow(b, |t'|), Val(t', b), b);
    }
  }

  lemma HornerShift(v: int, p: int, w: int, b: int)
    ensures (v * p + w) * b == v * (b * p) + w * b
  {
    MulAssoc(v, b, p);
    MulAssoc(v, p, b);
  }

  lemma ValCons(x: nat, s: seq<nat>, b: nat)
    ensures Val([x] + s, b) == x * Pow(b, |s|) + Val(s, b)
  {
    ValConcat([x], s, b);
    ValSnoc([], x, b);
    assert [] + [x] == [x];
  }

  lemma {:induction false} ValBound(s: seq<nat>, b: nat)
    requires b > 0 && Digital(s, b)
    ensures Val(s, b) < Pow(b, |s|)
  {
    if s != [] {
      ValBound(s[..|s| - 1], b);
      HornerBound(Val(s[..|s| - 1], b), s[|s| - 1], Pow(b, |s| - 1), b);
    }
  }

  lemma {:induction false} ValZeros(s: seq<nat>, b: nat)
    requires forall k :: 0 <= k < |s| ==> s[k] == 0
    ensures Val(s, b) == 0
  {
    if s != [] {
      ValZeros(s[..|s| - 1], b);
    }
  }

  lemma ValOne(x: nat, b: nat)
    ensures Val([x], b) == x
  {
    assert [x][..0] == [];
  }

  lemma ValTwo(x: nat, y: nat, b: nat)
    ensures Val([x, y], b) == x * b + y
  {
    assert [x, y] == [x] + [y];
    ValSnoc([x], y, b);
    ValOne(x, b);
  }

  /** A leading digit is zero exactly when the number fits the remaining digits. */
  lemma LeadingZero(x: nat, s: seq<nat>, b: nat)
    requires b > 0 && Digital(s, b)
    ensures x == 0 <==> Val([x] + s, b) < Pow(b, |s|)
    ensures x == 0 ==> Val([x] + s, b) == Val(s, b)
  {
    ValCons(x, s, b);
    ValBound(s, b);
    LeadingFactor(x, Pow(b, |s|), Val(s, b));
  }

  lemma LeadingFactor(x: nat, p: nat, v: nat)
    requires v < p
    ensures x == 0 <==> x * p + v < p
  {
    if x > 0 {
      MulLeft(p, 1, x);
    }
  }

  /** The C operator `|` on unsigned words. */
  function BitOr(x: nat, y: nat): nat {
    if x == 0 then y
    else 2 * BitOr(x / 2, y / 2) + (if x % 2 == 1 || y % 2 == 1 then 1 else 0)
  }

  /** Fields that do not overlap: `|` is addition. */
  lemma {:induction false} BitOrDisjoint(hi: nat, y: nat, k: nat)
    requires y < Pow(2, k)
    ensures BitOr(hi * Pow(2, k), y) == hi * Pow(2, k) + y
  {
    var x := hi * Pow(2, k);
    if x != 0 {
      if k == 0 {
        assert y == 0;
        BitOrZero(x);
      } else {
        var p := Pow(2, k - 1);
        assert x == 2 * (hi * p) by { MulAssoc(hi, 2, p); }
        BitOrDisjoint(hi, y / 2, k - 1);
      }
    }
  }

  lemma {:induction false} BitOrZero(x: nat)
    ensures BitOr(x, 0) == x
  {
    if x != 0 {
      BitOrZero(x / 2);
    }
  }

  lemma {:induction false} BitOrCommutes(x: nat, y: nat)
    ensures BitOr(x, y) == BitOr(y, x)
  {
    if x == 0 {
      BitOrZero(y);
    } else if y == 0 {
      BitOrZero(x);
    } else {
      BitOrCommutes(x / 2, y / 2);
    }
  }

  /** Shifting left by a and keeping the low part of a digit of base a*c drops the top bits. */
  lemma ShiftedLow(x: nat, a: nat, c: nat)
    requires a > 0 && c > 0
    ensures a * c > 0 && (x * a) % (a * c) == (x % c) * a
  {
    MulPositive(a, c);
    DivModEquation(x, c);
    MulLeft(a, x % c + 1, c);
    ShiftAlgebra(x, x / c, x % c, a, c);
    DivModUnique(x * a, x / c, (x % c) * a, a * c);
  }

  lemma ShiftAlgebra(x: int, q: int, r: int, a: int, c: int)
    requires x == q * c + r
    ensures x * a == q * (a * c) + r * a
  {
  }
}
