/**
 * A bartender's order: its bottles are sorted in place, each one needed is taken once, in ascending order, and
 * all are returned in the opposite order.
 */
module BarOrders {

  // ---------------------------------------------------------------- sorting

  ghost predicate Ascending(s: seq<nat>) {
    forall i, j :: 0 <= i < j < |s| ==> s[i] <= s[j]
  }

  /** How many elements of s are greater than x. */
  function Above(s: seq<nat>, x: nat): nat {
    if s == [] then 0 else Above(s[..|s| - 1], x) + (if s[|s| - 1] > x then 1 else 0)
  }

  /** How many pairs of s stand the wrong way round. */
  function Inversions(s: seq<nat>): nat {
    if s == [] then 0 else Inversions(s[..|s| - 1]) + Above(s[..|s| - 1], s[|s| - 1])
  }

  function Swapped(s: seq<nat>, i: nat): seq<nat>
    requires i + 1 < |s|
  {
    s[i := s[i + 1]][i + 1 := s[i]]
  }

  lemma AboveSnoc(s: seq<nat>, y: nat, x: nat)
    ensures Above(s + [y], x) == Above(s, x) + if y > x then 1 else 0
  {
    assert (s + [y])[..|s|] == s;
  }

  lemma InversionsSnoc(s: seq<nat>, y: nat)
    ensures Inversions(s + [y]) == Inversions(s) + Above(s, y)
  {
    assert (s + [y])[..|s|] == s;
  }

  lemma {:induction false} AboveSwapped(s: seq<nat>, i: nat, x: nat)
    requires i + 1 < |s|
    ensures Above(Swapped(s, i), x) == Above(s, x)
  {
    var t, y := s[..|s| - 1], s[|s| - 1];
    if i + 1 == |s| - 1 {
      var u, a := s[..|s| - 2], s[|s| - 2];
      assert s == (u + [a]) + [y] && Swapped(s, i) == (u + [y]) + [a];
      AboveSnoc(u + [a], y, x);
      AboveSnoc(u, a, x);
      AboveSnoc(u + [y], a, x);
      AboveSnoc(u, y, x);
    } else {
      assert s == t + [y] && Swapped(s, i) == Swapped(t, i) + [y];
      AboveSwapped(t, i, x);
      AboveSnoc(t, y, x);
      AboveSnoc(Swapped(t, i), y, x);
    }
  }

  /** Swapping two neighbours that stand the wrong way round removes exactly one inversion. */
  lemma {:induction false} SwapRemovesOne(s: seq<nat>, i: nat)
    requires i + 1 < |s| && s[i] > s[i + 1]
    ensures Inversions(Swapped(s, i)) == Inversions(s) - 1
  {
    var t, y := s[..|s| - 1], s[|s| - 1];
    if i + 1 == |s| - 1 {
      var u, a := s[..|s| - 2], s[|s| - 2];
      assert s == (u + [a]) + [y] && Swapped(s, i) == (u + [y]) + [a];
      InversionsSnoc(u + [a], y);
      InversionsSnoc(u, a);
      AboveSnoc(u, a, y);
      InversionsSnoc(u + [y], a);
      InversionsSnoc(u, y);
      AboveSnoc(u, y, a);
    } else {
      assert s == t + [y] && Swapped(s, i) == Swapped(t, i) + [y];
      SwapRemovesOne(t, i);
      AboveSwapped(t, i, y);
      InversionsSnoc(t, y);
      InversionsSnoc(Swapped(t, i), y);
    }
  }

  lemma SwapPermutes(s: seq<nat>, i: nat)
    requires i + 1 < |s|
    ensures multiset(Swapped(s, i)) == multiset(s)
  {
    assert s == s[..i] + ([s[i]] + [s[i + 1]]) + s[i + 2..];
    assert Swapped(s, i) == s[..i] + ([s[i + 1]] + [s[i]]) + s[i + 2..];
  }

  /** Neighbours in order mean everything is in order. */
  lemma {:induction false} NeighboursAscend(s: seq<nat>)
    requires forall i :: 0 < i < |s| ==> Before(s, i) <= s[i]
    ensures Ascending(s)
  {
    if |s| > 1 {
      var t, n := s[..|s| - 1], |s| - 1;
      forall i | 0 < i < |t|
        ensures Before(t, i) <= t[i]
      {
        assert Before(s, i) <= s[i];
      }
      NeighboursAscend(t);
      assert Before(s, n) <= s[n] && Before(s, n) == t[n - 1];
      hide Before;
      forall i, j | 0 <= i < j < |s|
        ensures s[i] <= s[j]
      {
        assert t[i] <= t[n - 1];
        assert j < n ==> t[i] <= t[j];
      }
    }
  }

  function Before(s: seq<nat>, i: nat): nat {
    if 0 < i <= |s| then s[i - 1] else 0
  }

  // ---------------------------------------------------------------- which bottles are taken

  /** What request i makes the loop take: nothing if it is empty or repeats the one before. */
  function TakenAt(s: seq<nat>, i: nat): seq<nat>
    requires i < |s|
  {
    if s[i] != 0 && (i == 0 || s[i] != s[i - 1]) then [s[i] - 1] else []
  }

  /** The bottle locks that going through the first n requests takes. */
  function Needed(s: seq<nat>, n: nat): seq<nat>
    requires n <= |s|
  {
    if n == 0 then [] else Needed(s, n - 1) + TakenAt(s, n - 1)
  }

  ghost predicate StrictlyAscending(s: seq<nat>) {
    forall i, j :: 0 <= i < j < |s| ==> s[i] < s[j]
  }

  /** The bottles taken are the ones asked for. */
  lemma {:induction false} NeededMembers(s: seq<nat>, n: nat)
    requires n <= |s|
    ensures forall b: nat :: b in Needed(s, n) <==> b + 1 in s[..n]
  {
    if n > 0 {
      NeededMembers(s, n - 1);
      forall b: nat
        ensures b in Needed(s, n) <==> b + 1 in s[..n]
      {
        NeededStep(s, n, b);
      }
    }
  }

  /** The last request is empty, repeats the one before, or adds its bottle. */
  lemma NeededStep(s: seq<nat>, n: nat, b: nat)
    requires 0 < n <= |s| && (b in Needed(s, n - 1) <==> b + 1 in s[..n - 1])
    ensures b in Needed(s, n) <==> b + 1 in s[..n]
  {
    var before, last := Needed(s, n - 1), s[n - 1];
    assert Needed(s, n) == before + TakenAt(s, n - 1);
    hide Needed;
    assert s[..n] == s[..n - 1] + [last];
    if last == 0 {
      assert TakenAt(s, n - 1) == [];
    } else if n > 1 && last == s[n - 2] {
      assert TakenAt(s, n - 1) == [] && last == s[..n - 1][n - 2];
    } else {
      assert TakenAt(s, n - 1) == [last - 1];
    }
  }

  /**
   * On a sorted order the test against the previous request alone takes every distinct bottle once, in ascending
   * order.
   */
  lemma {:induction false} NeededSorted(s: seq<nat>, n: nat)
    requires Ascending(s) && n <= |s|
    ensures StrictlyAscending(Needed(s, n))
    ensures forall b :: b in Needed(s, n) ==> n > 0 && b + 1 <= s[n - 1]
  {
    if n > 0 {
      NeededSorted(s, n - 1);
      assert n > 1 ==> s[n - 2] <= s[n - 1];
      hide Ascending;
      AscendingSnoc(Needed(s, n - 1), TakenAt(s, n - 1));
      assert forall b :: b in Needed(s, n) <==> b in Needed(s, n - 1) || b in TakenAt(s, n - 1);
    }
  }

  lemma AscendingSnoc(s: seq<nat>, t: seq<nat>)
    requires StrictlyAscending(s) && |t| <= 1 && forall b, c :: b in s && c in t ==> b < c
    ensures StrictlyAscending(s + t)
  {
    forall i, j | 0 <= i < j < |s + t|
      ensures (s + t)[i] < (s + t)[j]
    {
      if j == |s| {
        assert s[i] in s && t[0] in t;
      }
    }
  }

  function Reverse(s: seq<nat>): seq<nat> {
    if s == [] then [] else [s[|s| - 1]] + Reverse(s[..|s| - 1])
  }

  class Order {
    const requested: array<nat>
    /** hold_bottle: the bottle locks taken, -1 standing for NULL. */
    const hold: array<int>

    constructor (n: nat)
      ensures requested.Length == hold.Length == n && fresh(requested) && fresh(hold)
    {
      requested := new nat[n];
      hold := new int[n];
    }

    /** One pass over the order's neighbours. */
    method Pass() returns (swap: bool)
      modifies requested
      ensures multiset(requested[..]) == multiset(old(requested[..]))
      ensures if swap then Inversions(requested[..]) < Inversions(old(requested[..]))
              else requested[..] == old(requested[..]) && Ascending(requested[..])
    {
      swap := false;
      var i := 0;
      while i < requested.Length - 1
        invariant 0 <= i && (requested.Length > 0 ==> i <= requested.Length - 1)
        invariant multiset(requested[..]) == multiset(old(requested[..]))
        invariant swap ==> Inversions(requested[..]) < Inversions(old(requested[..]))
        invariant !swap ==> requested[..] == old(requested[..])
        invariant !swap ==> forall k :: 0 < k <= i && k < requested.Length ==> Before(requested[..], k) <= requested[k]
      {
        if requested[i] > requested[i + 1] {
          ghost var s := requested[..];
          SwapRemovesOne(s, i);
          SwapPermutes(s, i);
          requested[i], requested[i + 1] := requested[i + 1], requested[i];
          assert requested[..] == Swapped(s, i);
          swap := true;
        }
        i := i + 1;
      }
      if !swap {
        NeighboursAscend(requested[..]);
      }
    }

    /** sort_requested_bottles: passes until one swaps nothing. */
    method Sort()
      modifies requested
      ensures Ascending(requested[..]) && multiset(requested[..]) == multiset(old(requested[..]))
    {
      var swap := true;
      while swap
        invariant multiset(requested[..]) == multiset(old(requested[..]))
        invariant !swap ==> Ascending(requested[..])
        decreases Inversions(requested[..]), swap
      {
        swap := Pass();
      }
    }

    /** The slots of hold: the locks taken, then nothing. */
    ghost predicate Holds(taken: seq<nat>)
      reads hold
    {
      |taken| <= hold.Length && (forall i :: 0 <= i < |taken| ==> hold[i] == taken[i]) &&
      forall i :: |taken| <= i < hold.Length ==> hold[i] == -1
    }

    /** take_bottles: the locks acquired, in order, each remembered in the next slot of hold. */
    method TakeBottles() returns (taken: seq<nat>)
      requires requested.Length == hold.Length
      modifies hold
      ensures taken == Needed(requested[..], requested.Length) && Holds(taken)
    {
      taken := [];
      var j := 0;
      var i := 0;
      while i < requested.Length
        invariant 0 <= j <= i <= requested.Length && j == |taken|
        invariant taken == Needed(requested[..], i)
        invariant forall k :: 0 <= k < j ==> hold[k] == taken[k]
        invariant forall k :: j <= k < i ==> hold[k] == -1
      {
        hold[i] := -1;
        if requested[i] != 0 && (i == 0 || requested[i] != requested[i - 1]) {
          hold[j] := requested[i] - 1;
          taken := taken + [requested[i] - 1];
          j := j + 1;
        }
        i := i + 1;
      }
    }

    /** return_bottles: the locks released, in order. */
    method ReturnBottles(ghost taken: seq<nat>) returns (released: seq<nat>)
      requires Holds(taken)
      ensures released == Reverse(taken)
    {
      released := [];
      var i := hold.Length;
      assert taken[..|taken|] == taken;
      while i > 0
        invariant 0 <= i <= hold.Length
        invariant released + Reverse(taken[..if i < |taken| then i else |taken|]) == Reverse(taken)
      {
        i := i - 1;
        if hold[i] != -1 {
          assert taken[..i + 1][..i] == taken[..i];
          released := released + [hold[i]];
        }
      }
      assert taken[..0] == [];
    }
  }

  /** Whatever the order, what is returned is what was taken, the last taken first. */
  lemma {:induction false} ReverseReturnsAll(s: seq<nat>)
    ensures multiset(Reverse(s)) == multiset(s) && |Reverse(s)| == |s|
    ensures forall i :: 0 <= i < |s| ==> Reverse(s)[i] == s[|s| - 1 - i]
  {
    if s != [] {
      var t := s[..|s| - 1];
      ReverseReturnsAll(t);
      assert s == t + [s[|s| - 1]];
    }
  }
}
