/**
 * The deadlock detector: one field in each actor, one in each lockable, and a walk along them before an actor
 * starts to wait.
 */
module Hangman {
  import opened Basics
  import opened WaitsFor

  class Lockable {
    var holding: Actor?

    constructor ()
      ensures holding == null
    {
      holding := null;
    }
  }

  class Actor {
    var waiting: Lockable?

    constructor ()
      ensures waiting == null
    {
      waiting := null;
    }
  }

  /** How a call ends: normally, with the deadlock panic, or with the panic about a call out of turn. */
  datatype Verdict = Fine | Deadlock | Misuse

  /** What a walk that has ended has seen. */
  lemma {:induction false} WalkEnds<A, L>(g: Graph<A, L>, x: A, k: nat, i: nat)
    requires Walk(g, x, k) == None && k <= i
    ensures Walk(g, x, i) == None
  {
    if k < i {
      WalkEnds(g, x, k, i - 1);
    }
  }

  class Detector {
    /** The lockable of the detector's own spinlock, which it does not track. */
    const own: Lockable
    ghost var actors: set<Actor>
    ghost var lockables: set<Lockable>

    ghost function Waiting(): map<Actor, Lockable>
      reads this, actors
    {
      map a | a in actors && a.waiting != null :: a.waiting
    }

    ghost function Holding(): map<Lockable, Actor>
      reads this, lockables
    {
      map l | l in lockables && l.holding != null :: l.holding
    }

    /** The waits-for graph the fields make up. */
    ghost function G(): Graph<Actor, Lockable>
      reads this, actors, lockables
    {
      Graph(Waiting(), Holding())
    }

    ghost predicate Closed()
      reads this, actors, lockables
    {
      own !in lockables &&
      (forall a :: a in actors && a.waiting != null ==> a.waiting in lockables) &&
      forall l :: l in lockables && l.holding != null ==> l.holding in actors
    }

    ghost predicate Valid()
      reads this, actors, lockables
    {
      Closed() && Acyclic(G())
    }

    constructor ()
      ensures Valid() && actors == {} && lockables == {} && fresh(own)
    {
      own := new Lockable();
      actors, lockables := {}, {};
    }

    method AddActor() returns (a: Actor)
      requires Valid()
      modifies this`actors
      ensures fresh(a) && actors == old(actors) + {a} && Valid() && G() == old(G())
    {
      a := new Actor();
      actors := actors + {a};
      assert Waiting() == old(Waiting()) && Holding() == old(Holding());
    }

    method AddLockable() returns (l: Lockable)
      requires Valid()
      modifies this`lockables
      ensures fresh(l) && lockables == old(lockables) + {l} && Valid() && G() == old(G())
    {
      l := new Lockable();
      lockables := lockables + {l};
      assert Waiting() == old(Waiting()) && Holding() == old(Holding());
    }

    /** hangman_check: is there a path from start to target?  The walk ends because the graph has no cycle. */
    method Check(start: Lockable, target: Actor) returns (found: bool)
      requires Valid() && start in lockables && target in actors
      ensures found <==> ClosesCycle(G(), target, start)
    {
      var cur := start.holding;
      if cur == null {
        return false;
      }
      ghost var g, k, seen: set<Actor> := G(), 0, {};
      ghost var h: Actor := cur;
      assert start in g.holding && g.holding[start] == h;
      while cur != null
        invariant cur != null ==> cur in actors && Walk(g, h, k).Some? && Walk(g, h, k).value == cur
        invariant cur == null ==> Walk(g, h, k) == None
        invariant forall i: nat :: i < k ==> Walk(g, h, i) != Some(target)
        invariant seen <= actors && |seen| == k
        invariant forall b :: b in seen ==> exists i: nat :: i < k && Walk(g, h, i) == Some(b)
        decreases |actors| - |seen|, cur != null
      {
        if cur == target {
          return true;
        }
        ghost var here: Actor := cur;
        forall i: nat | i < k
          ensures Walk(g, h, i) != Some(here)
        {
          NoReturn(g, h, i, k);
        }
        MoreToSee(seen, here, actors);
        seen := seen + {here};
        assert Walk(g, h, k + 1) == Next(g, here);
        if cur.waiting == null {
          cur := null;
        } else {
          assert here in g.waiting && g.waiting[here] == cur.waiting;
          cur := cur.waiting.holding;
        }
        k := k + 1;
      }
      forall i: nat
        ensures Walk(g, h, i) != Some(target)
      {
        if k <= i {
          WalkEnds(g, h, k, i);
        }
      }
      found := false;
    }

    /** hangman_wait: a is about to wait for l. */
    method Wait(a: Actor, l: Lockable) returns (v: Verdict)
      requires Valid() && a in actors && (l in lockables || l == own)
      modifies a
      ensures l == own ==> v == Fine && a.waiting == old(a.waiting) && Valid()
      ensures l != own ==> (v == Misuse <==> old(a.waiting) != null)
      ensures l != own ==> (v == Deadlock <==> old(a.waiting) == null && ClosesCycle(old(G()), a, l))
      ensures l != own && v == Fine ==> Valid() && G() == WaitsFor.Wait(old(G()), a, l) && a.waiting == l
      ensures v != Fine ==> a.waiting == old(a.waiting)
    {
      if l == own {
        return Fine;
      }
      if a.waiting != null {
        return Misuse;
      }
      var found := Check(l, a);
      if found {
        return Deadlock;
      }
      WaitNoCycle(G(), a, l);
      a.waiting := l;
      assert Waiting() == old(Waiting())[a := l];
      v := Fine;
    }

    /** hangman_acquire: a, which was waiting for l, has it now. */
    method Acquire(a: Actor, l: Lockable) returns (v: Verdict)
      requires Valid() && a in actors && (l in lockables || l == own)
      modifies a, l
      ensures l == own ==> v == Fine && a.waiting == old(a.waiting) && l.holding == old(l.holding) && Valid()
      ensures l != own ==> (v == Fine <==> old(a.waiting) == l && old(l.holding) == null) && v != Deadlock
      ensures l != own && v == Fine ==> Valid() && G() == WaitsFor.Acquire(old(G()), a, l)
      ensures l != own && v == Fine ==> l.holding == a && a.waiting == null
      ensures v != Fine ==> a.waiting == old(a.waiting) && l.holding == old(l.holding)
    {
      if l == own {
        return Fine;
      }
      if a.waiting != l || l.holding != null {
        return Misuse;
      }
      AcquireKeepsAcyclic(G(), a, l);
      l.holding := a;
      a.waiting := null;
      assert Waiting() == old(Waiting()) - {a};
      assert Holding() == old(Holding())[l := a];
      v := Fine;
    }

    /** hangman_release: a gives l up. */
    method Release(a: Actor, l: Lockable) returns (v: Verdict)
      requires Valid() && a in actors && (l in lockables || l == own)
      modifies l
      ensures l == own ==> v == Fine && l.holding == old(l.holding) && Valid()
      ensures l != own ==> (v == Fine <==> a.waiting == null && old(l.holding) == a) && v != Deadlock
      ensures l != own && v == Fine ==> Valid() && G() == WaitsFor.Release(old(G()), l) && l.holding == null
      ensures v != Fine ==> l.holding == old(l.holding)
    {
      if l == own {
        return Fine;
      }
      if a.waiting != null || l.holding != a {
        return Misuse;
      }
      ReleaseKeepsAcyclic(G(), l);
      l.holding := null;
      assert Holding() == old(Holding()) - {l};
      v := Fine;
    }
  }

  lemma MoreToSee<T>(seen: set<T>, x: T, all: set<T>)
    requires seen <= all && x in all && x !in seen
    ensures |seen| < |all| && |seen + {x}| == |seen| + 1 && seen + {x} <= all
  {
    SubsetCount(seen + {x}, all);
  }

  // ---------------------------------------------------------------- runs

  datatype Call<A, L> = WaitCall(a: A, l: L) | AcquireCall(a: A, l: L) | ReleaseCall(a: A, l: L)

  /** The call does not panic. */
  ghost predicate Passes<A, L>(g: Graph<A, L>, call: Call<A, L>) {
    match call
    case WaitCall(a, l) => a !in g.waiting && !ClosesCycle(g, a, l)
    case AcquireCall(a, l) => a in g.waiting && g.waiting[a] == l && l !in g.holding
    case ReleaseCall(a, l) => a !in g.waiting && l in g.holding && g.holding[l] == a
  }

  function Effect<A, L>(g: Graph<A, L>, call: Call<A, L>): Graph<A, L> {
    match call
    case WaitCall(a, l) => WaitsFor.Wait(g, a, l)
    case AcquireCall(a, l) => WaitsFor.Acquire(g, a, l)
    case ReleaseCall(_, l) => WaitsFor.Release(g, l)
  }

  /** The graph after all of the calls, each of which has to pass. */
  ghost function After<A, L>(calls: seq<Call<A, L>>): Option<Graph<A, L>> {
    if calls == [] then Some(Graph(map[], map[]))
    else
      var last := calls[|calls| - 1];
      match After(calls[..|calls| - 1])
      case None => None
      case Some(g) => if Passes(g, last) then Some(Effect(g, last)) else None
  }

  /** The graph is acyclic after any sequence of calls that do not panic. */
  lemma {:induction false} NeverCyclic<A, L>(calls: seq<Call<A, L>>)
    requires After(calls).Some?
    ensures Acyclic(After(calls).value)
  {
    if calls != [] {
      NeverCyclic(calls[..|calls| - 1]);
      var g := After(calls[..|calls| - 1]).value;
      match calls[|calls| - 1]
      case WaitCall(a, l) => WaitNoCycle(g, a, l);
      case AcquireCall(a, l) => AcquireKeepsAcyclic(g, a, l);
      case ReleaseCall(_, l) => ReleaseKeepsAcyclic(g, l);
    }
  }

  /** The deadlock panic comes exactly when the new edge would make the graph cyclic. */
  lemma DeadlockIffCycle<A, L>(calls: seq<Call<A, L>>, a: A, l: L)
    requires After(calls).Some? && a !in After(calls).value.waiting
    ensures ClosesCycle(After(calls).value, a, l) <==> !Acyclic(WaitsFor.Wait(After(calls).value, a, l))
  {
    NeverCyclic(calls);
    if ClosesCycle(After(calls).value, a, l) {
      WaitCycle(After(calls).value, a, l);
    } else {
      WaitNoCycle(After(calls).value, a, l);
    }
  }
}
