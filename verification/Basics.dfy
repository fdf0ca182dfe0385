/** What several of the models share. */
module Basics {

  datatype Option<T> = None | Some(value: T)

  ghost predicate Distinct(s: seq<int>) {
    forall i, j :: 0 <= i < j < |s| ==> s[i] != s[j]
  }

  lemma SubsetCount<T>(a: set<T>, c: set<T>)
    requires a <= c
    ensures |a| <= |c| && (|a| == |c| ==> a == c)
  {
    var d := c - a;
    assert c == a + d;
    assert |c| == |a| + |d|;
  }

  // ---------------------------------------------------------------- queues

  /** The place of t in l. */
  function Place(l: seq<int>, t: int): (i: nat)
    requires t in l
    ensures i < |l| && l[i] == t
  {
    if l[0] == t then 0 else 1 + Place(l[1..], t)
  }

  lemma PlaceIs(l: seq<int>, t: int, i: nat)
    requires Distinct(l) && i < |l| && l[i] == t
    ensures t in l && Place(l, t) == i
  {
  }

  /** What a step does to a queue: serve its head, or else leave it, add at its end, or take away at its end. */
  ghost predicate Turn(l: seq<int>, served: bool, l': seq<int>) {
    if served then l != [] && l' == l[1..]
    else l' == l || (|l'| == |l| + 1 && l'[..|l|] == l) || (l != [] && l' == l[..|l| - 1])
  }

  /** Whoever stays on the queue is one place nearer the head when the head was served, and else where it was. */
  lemma TurnPlace(l: seq<int>, served: bool, l': seq<int>, t: int)
    requires Distinct(l) && Distinct(l') && Turn(l, served, l') && t in l && t in l'
    ensures Place(l', t) + (if served then 1 else 0) == Place(l, t)
  {
    hide Place;
    var i := Place(l, t);
    var j :| 0 <= j < |l'| && l'[j] == t;
    if served {
      assert l[j + 1] == t;
      PlaceIs(l', t, i - 1);
    } else {
      assert |l'| < |l| ==> l[j] == t;
      PlaceIs(l', t, i);
    }
  }
}
