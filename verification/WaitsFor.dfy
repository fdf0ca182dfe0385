/**
 * The waits-for graph: an actor waits for at most one lockable, a lockable is held by at most one actor, so
 * from an actor there is at most one way on.
 */
module WaitsFor {
  import opened Basics

  datatype Graph<A, L> = Graph(waiting: map<A, L>, holding: map<L, A>)

  /** The actor that holds what a waits for. */
  function Next<A, L>(g: Graph<A, L>, a: A): Option<A> {
    if a in g.waiting && g.waiting[a] in g.holding then Some(g.holding[g.waiting[a]]) else None
  }

  /** The actor k steps on from a. */
  function Walk<A, L>(g: Graph<A, L>, a: A, k: nat): Option<A> {
    if k == 0 then Some(a)
    else match Walk(g, a, k - 1)
      case None => None
      case Some(b) => Next(g, b)
  }

  /** No actor waits, through others, for itself. */
  ghost predicate Acyclic<A, L>(g: Graph<A, L>) {
    forall a, k: nat :: a in g.waiting && k > 0 ==> Walk(g, a, k) != Some(a)
  }

  ghost predicate Reaches<A, L>(g: Graph<A, L>, a: A, b: A) {
    exists k: nat :: Walk(g, a, k) == Some(b)
  }

  lemma {:induction false} WalkAdd<A, L>(g: Graph<A, L>, a: A, b: A, i: nat, j: nat)
    requires Walk(g, a, i) == Some(b)
    ensures Walk(g, a, i + j) == Walk(g, b, j)
  {
    if j > 0 {
      WalkAdd(g, a, b, i, j - 1);
      assert i + j - 1 == i + (j - 1);
    }
  }

  /** An actor that takes a step is waiting. */
  lemma {:induction false} WalkFrom<A, L>(g: Graph<A, L>, a: A, k: nat)
    requires k > 0 && Walk(g, a, k).Some?
    ensures a in g.waiting && Next(g, a).Some? && Walk(g, Next(g, a).value, k - 1) == Walk(g, a, k)
  {
    if k == 1 {
      assert Walk(g, a, 0) == Some(a);
    } else {
      WalkFrom(g, a, k - 1);
      assert Walk(g, a, k - 1).Some?;
    }
  }

  // ---------------------------------------------------------------- what each call does to the graph

  function Wait<A, L>(g: Graph<A, L>, a: A, l: L): Graph<A, L> {
    g.(waiting := g.waiting[a := l])
  }

  function Acquire<A, L>(g: Graph<A, L>, a: A, l: L): Graph<A, L> {
    Graph(g.waiting - {a}, g.holding[l := a])
  }

  function Release<A, L>(g: Graph<A, L>, l: L): Graph<A, L> {
    g.(holding := g.holding - {l})
  }

  /** The holder of l, if any, waits through others for a: the situation in which a must not wait for l. */
  ghost predicate ClosesCycle<A, L>(g: Graph<A, L>, a: A, l: L) {
    l in g.holding && Reaches(g, g.holding[l], a)
  }

  /** Until a walk comes to a, a's new edge makes no difference to it. */
  lemma {:induction false} WaitSameWalk<A, L>(g: Graph<A, L>, a: A, l: L, x: A, k: nat)
    requires forall i: nat :: i < k ==> Walk(g, x, i) != Some(a)
    ensures Walk(Wait(g, a, l), x, k) == Walk(g, x, k)
  {
    if k > 0 {
      WaitSameWalk(g, a, l, x, k - 1);
    }
  }

  /** A walk that has come to an actor that is not waiting came there once only. */
  lemma StopsThere<A, L>(g: Graph<A, L>, a: A, x: A, i: nat, k: nat)
    requires a !in g.waiting && Walk(g, x, k) == Some(a) && i < k
    ensures Walk(g, x, i) != Some(a)
  {
    if Walk(g, x, i) == Some(a) {
      WalkAdd(g, x, a, i, k - i);
      WalkFrom(g, a, k - i);
    }
  }

  /** If the edge does close a cycle, the new graph has one. */
  lemma WaitCycle<A, L>(g: Graph<A, L>, a: A, l: L)
    requires a !in g.waiting && ClosesCycle(g, a, l)
    ensures !Acyclic(Wait(g, a, l))
  {
    var g', h := Wait(g, a, l), g.holding[l];
    var k: nat :| Walk(g, h, k) == Some(a);
    forall i: nat | i < k
      ensures Walk(g, h, i) != Some(a)
    {
      StopsThere(g, a, h, i, k);
    }
    WaitSameWalk(g, a, l, h, k);
    assert Walk(g', a, 0) == Some(a) && Walk(g', a, 1) == Some(h);
    WalkAdd(g', a, h, 1, k);
    assert a in g'.waiting && Walk(g', a, 1 + k) == Some(a);
  }

  /** If it does not, the new graph has none. */
  lemma WaitNoCycle<A, L>(g: Graph<A, L>, a: A, l: L)
    requires Acyclic(g) && a !in g.waiting && !ClosesCycle(g, a, l)
    ensures Acyclic(Wait(g, a, l))
  {
    var g' := Wait(g, a, l);
    forall c, k: nat | c in g'.waiting && k > 0
      ensures Walk(g', c, k) != Some(c)
    {
      NoNewCycle(g, a, l, c, k);
    }
  }

  lemma NoNewCycle<A, L>(g: Graph<A, L>, a: A, l: L, c: A, k: nat)
    requires Acyclic(g) && a !in g.waiting && !ClosesCycle(g, a, l) && k > 0
    ensures Walk(Wait(g, a, l), c, k) != Some(c)
  {
    var g' := Wait(g, a, l);
    if m: nat :| Walk(g, c, m) == Some(a) {
      forall i: nat | i < m
        ensures Walk(g, c, i) != Some(a)
      {
        StopsThere(g, a, c, i, m);
      }
      WaitSameWalk(g, a, l, c, m);
      if Walk(g', c, k) == Some(c) {
        WalkAdd(g', c, c, k, m);
        WalkAdd(g', c, a, m, k);
        assert k + m == m + k;
        WalkFrom(g', a, k);
        var h := g.holding[l];
        assert forall i: nat :: Walk(g, h, i) != Some(a);
        WaitSameWalk(g, a, l, h, k - 1);
      }
    } else {
      WaitSameWalk(g, a, l, c, k);
      if Walk(g, c, k) == Some(c) {
        WalkFrom(g, c, k);
      }
    }
  }

  /** After an acquire the actor waits for nothing, so every walk that does not end at it was there before. */
  lemma {:induction false} AcquireSameWalk<A, L>(g: Graph<A, L>, a: A, l: L, x: A, k: nat)
    requires l !in g.holding && Walk(Acquire(g, a, l), x, k).Some? && Walk(Acquire(g, a, l), x, k) != Some(a)
    ensures Walk(g, x, k) == Walk(Acquire(g, a, l), x, k)
  {
    if k > 0 {
      AcquireSameWalk(g, a, l, x, k - 1);
    }
  }

  lemma AcquireKeepsAcyclic<A, L>(g: Graph<A, L>, a: A, l: L)
    requires Acyclic(g) && l !in g.holding
    ensures Acyclic(Acquire(g, a, l))
  {
    var g' := Acquire(g, a, l);
    forall c, k: nat | c in g'.waiting && k > 0
      ensures Walk(g', c, k) != Some(c)
    {
      if Walk(g', c, k) == Some(c) {
        AcquireSameWalk(g, a, l, c, k);
      }
    }
  }

  lemma {:induction false} ReleaseSameWalk<A, L>(g: Graph<A, L>, l: L, x: A, k: nat)
    requires Walk(Release(g, l), x, k).Some?
    ensures Walk(g, x, k) == Walk(Release(g, l), x, k)
  {
    if k > 0 {
      ReleaseSameWalk(g, l, x, k - 1);
    }
  }

  lemma ReleaseKeepsAcyclic<A, L>(g: Graph<A, L>, l: L)
    requires Acyclic(g)
    ensures Acyclic(Release(g, l))
  {
    var g' := Release(g, l);
    forall c, k: nat | c in g'.waiting && k > 0
      ensures Walk(g', c, k) != Some(c)
    {
      if Walk(g', c, k) == Some(c) {
        ReleaseSameWalk(g, l, c, k);
      }
    }
  }

  /** In an acyclic graph a walk never comes back to where it has been. */
  lemma NoReturn<A, L>(g: Graph<A, L>, x: A, i: nat, j: nat)
    requires Acyclic(g) && i < j && Walk(g, x, j).Some?
    ensures Walk(g, x, i).Some? && Walk(g, x, i) != Walk(g, x, j)
  {
    WalkDefined(g, x, i, j);
    var b := Walk(g, x, i).value;
    WalkAdd(g, x, b, i, j - i);
    WalkFrom(g, b, j - i);
  }

  lemma {:induction false} WalkDefined<A, L>(g: Graph<A, L>, x: A, i: nat, j: nat)
    requires i <= j && Walk(g, x, j).Some?
    ensures Walk(g, x, i).Some?
    decreases j
  {
    if i < j {
      WalkDefined(g, x, i, j - 1);
    }
  }
}
