/**
 * The thread list: doubly linked nodes between two sentinels.  The nodes live inside the thread structures, so
 * adding a thread allocates nothing and a thread can be on one list only.
 */
module ThreadList {

  /** A list node; a sentinel belongs to no thread. */
  class Node {
    var prev: Node?
    var next: Node?
    const owner: int

    constructor (t: int)
      ensures prev == null && next == null && owner == t
    {
      prev, next, owner := null, null, t;
    }
  }

  function NextIn(s: seq<Node>, i: nat): Node? {
    if i + 1 < |s| then s[i + 1] else null
  }

  function PrevIn(s: seq<Node>, i: nat): Node? {
    if 0 < i <= |s| then s[i - 1] else null
  }

  /** The nodes of s, in that order, are linked to each other in both directions and to nothing else. */
  ghost predicate Linked(s: seq<Node>)
    reads s
  {
    (forall i, j :: 0 <= i < j < |s| ==> s[i] != s[j]) &&
    forall i :: 0 <= i < |s| ==> s[i].next == NextIn(s, i) && s[i].prev == PrevIn(s, i)
  }

  /** A node with no links is on no list. */
  lemma UnlinkedIsElsewhere(s: seq<Node>, n: Node)
    requires Linked(s) && |s| >= 2 && n.prev == null && n.next == null
    ensures n !in s
  {
    assert forall i :: 0 <= i < |s| ==> NextIn(s, i) != null || PrevIn(s, i) != null;
  }

  /** The node k links after n, among the nodes s. */
  ghost function Forward(s: seq<Node>, n: Node?, k: nat): Node?
    reads s
  {
    if k == 0 then n else if n == null || n !in s then null else Forward(s, n.next, k - 1)
  }

  /** The node k links before n, among the nodes s. */
  ghost function Backward(s: seq<Node>, n: Node?, k: nat): Node?
    reads s
  {
    if k == 0 then n else if n == null || n !in s then null else Backward(s, n.prev, k - 1)
  }

  lemma StepForward(s: seq<Node>, i: nat, k: nat)
    requires Linked(s) && i + 1 < |s| && k > 0
    ensures Forward(s, s[i], k) == Forward(s, s[i + 1], k - 1)
  {
    assert s[i] in s && s[i].next == NextIn(s, i);
  }

  lemma StepBackward(s: seq<Node>, i: nat, k: nat)
    requires Linked(s) && 0 < i < |s| && k > 0
    ensures Backward(s, s[i], k) == Backward(s, s[i - 1], k - 1)
  {
    assert s[i] in s && s[i].prev == PrevIn(s, i);
  }

  /** Walking forward visits the nodes in order. */
  lemma {:induction false} ForwardWalk(s: seq<Node>, i: nat, k: nat)
    requires Linked(s) && i + k < |s|
    ensures Forward(s, s[i], k) == s[i + k]
    decreases k
  {
    hide Linked;
    if k > 0 {
      StepForward(s, i, k);
      ForwardWalk(s, i + 1, k - 1);
    }
  }

  /** Walking backward visits them in reverse, so the two walks mirror each other. */
  lemma {:induction false} BackwardWalk(s: seq<Node>, i: nat, k: nat)
    requires Linked(s) && k <= i < |s|
    ensures Backward(s, s[i], k) == s[i - k]
    decreases k
  {
    hide Linked;
    if k > 0 {
      StepBackward(s, i, k);
      BackwardWalk(s, i - 1, k - 1);
    }
  }

  lemma WalksMirror(s: seq<Node>, k: nat)
    requires Linked(s) && k < |s|
    ensures Forward(s, s[0], k) == Backward(s, s[|s| - 1], |s| - 1 - k) == s[k]
  {
    ForwardWalk(s, 0, k);
    BackwardWalk(s, |s| - 1, |s| - 1 - k);
  }

  function Insert(s: seq<Node>, i: nat, n: Node): seq<Node>
    requires i <= |s|
  {
    s[..i] + [n] + s[i..]
  }

  function Delete(s: seq<Node>, i: nat): seq<Node>
    requires i < |s|
  {
    s[..i] + s[i + 1..]
  }

  /** threadlist_insertafternode: addee goes in behind the node at place i. */
  method InsertAfterNode(onlist: Node, addee: Node, ghost s: seq<Node>, ghost i: nat)
    requires Linked(s) && i + 1 < |s| && s[i] == onlist
    requires addee.prev == null && addee.next == null
    modifies onlist, onlist.next, addee
    ensures addee !in s && Linked(Insert(s, i + 1, addee))
  {
    UnlinkedIsElsewhere(s, addee);
    addee.prev := onlist;
    addee.next := onlist.next;
    addee.prev.next := addee;
    addee.next.prev := addee;
    Inserted(s, i + 1, addee);
  }

  /** threadlist_insertbeforenode: addee goes in before the node at place i. */
  method InsertBeforeNode(addee: Node, onlist: Node, ghost s: seq<Node>, ghost i: nat)
    requires Linked(s) && 0 < i < |s| && s[i] == onlist
    requires addee.prev == null && addee.next == null
    modifies onlist, onlist.prev, addee
    ensures addee !in s && Linked(Insert(s, i, addee))
  {
    UnlinkedIsElsewhere(s, addee);
    addee.prev := onlist.prev;
    addee.next := onlist;
    addee.prev.next := addee;
    addee.next.prev := addee;
    Inserted(s, i, addee);
  }

  /** The links of a list into which n has been put before place i. */
  lemma Inserted(s: seq<Node>, i: nat, n: Node)
    requires 0 < i < |s| && n !in s && n.prev == s[i - 1] && n.next == s[i]
    requires forall j, k :: 0 <= j < k < |s| ==> s[j] != s[k]
    requires forall j :: 0 <= j < |s| ==> s[j].next == if j == i - 1 then n else NextIn(s, j)
    requires forall j :: 0 <= j < |s| ==> s[j].prev == if j == i then n else PrevIn(s, j)
    ensures Linked(Insert(s, i, n))
  {
    var t := Insert(s, i, n);
    forall j | 0 <= j < |t|
      ensures t[j].next == NextIn(t, j) && t[j].prev == PrevIn(t, j)
    {
      if j != i {
        var k := if j < i then j else j - 1;
        assert t[j] == s[k];
      }
    }
  }

  /** threadlist_removenode: the node at place i comes out with both its links null. */
  method RemoveNode(n: Node, ghost s: seq<Node>, ghost i: nat)
    requires Linked(s) && 0 < i < |s| - 1 && s[i] == n
    modifies n, n.prev, n.next
    ensures Linked(Delete(s, i)) && n !in Delete(s, i) && n.prev == null && n.next == null
  {
    assert n.prev == s[i - 1] && n.next == s[i + 1];
    n.prev.next := n.next;
    n.next.prev := n.prev;
    n.prev := null;
    n.next := null;
    Deleted(s, i);
  }

  lemma Deleted(s: seq<Node>, i: nat)
    requires 0 < i < |s| - 1
    requires forall j, k :: 0 <= j < k < |s| ==> s[j] != s[k]
    requires forall j :: 0 <= j < |s| && j != i ==> s[j].next == if j == i - 1 then s[i + 1] else NextIn(s, j)
    requires forall j :: 0 <= j < |s| && j != i ==> s[j].prev == if j == i + 1 then s[i - 1] else PrevIn(s, j)
    ensures Linked(Delete(s, i)) && s[i] !in Delete(s, i)
  {
    var t := Delete(s, i);
    assert forall j :: 0 <= j < |t| ==> t[j] == s[if j < i then j else j + 1];
  }

  lemma InsertInside(h: Node, s: seq<Node>, t: Node, i: nat, n: Node)
    requires i <= |s|
    ensures Insert([h] + s + [t], i + 1, n) == [h] + Insert(s, i, n) + [t]
  {
    var c := [h] + s + [t];
    assert c[..i + 1] == [h] + s[..i] && c[i + 1..] == s[i..] + [t];
  }

  lemma DeleteInside(h: Node, s: seq<Node>, t: Node, i: nat)
    requires i < |s|
    ensures Delete([h] + s + [t], i + 1) == [h] + Delete(s, i) + [t]
  {
    var c := [h] + s + [t];
    assert c[..i + 1] == [h] + s[..i] && c[i + 2..] == s[i + 1..] + [t];
  }

  class List {
    const head: Node
    const tail: Node
    var count: nat
    /** The nodes of the threads on the list, in order. */
    ghost var nodes: seq<Node>

    ghost function Chain(): seq<Node>
      reads this
    {
      [head] + nodes + [tail]
    }

    ghost predicate Valid()
      reads this, Chain()
    {
      Linked(Chain()) && count == |nodes|
    }


    constructor ()
      ensures Valid() && nodes == [] && fresh(head) && fresh(tail)
    {
      head := new Node(-1);
      tail := new Node(-1);
      count, nodes := 0, [];
      new;
      head.next := tail;
      tail.prev := head;
    }

    predicate IsEmpty()
      reads this, Chain()
      requires Valid()
      ensures IsEmpty() <==> nodes == []
    {
      count == 0
    }

    method AddHead(n: Node)
      requires Valid() && n.prev == null && n.next == null
      modifies this, Chain(), n
      ensures Valid() && nodes == [n] + old(nodes)
    {
      assert Chain()[0] == head && head.next == Chain()[1];
      hide Linked;
      InsertAfterNode(head, n, Chain(), 0);
      assert Insert(Chain(), 1, n) == [head] + ([n] + nodes) + [tail];
      count, nodes := count + 1, [n] + nodes;
    }

    method AddTail(n: Node)
      requires Valid() && n.prev == null && n.next == null
      modifies this, Chain(), n
      ensures Valid() && nodes == old(nodes) + [n]
    {
      assert Chain()[|nodes| + 1] == tail && tail.prev == Chain()[|nodes|];
      InsertBeforeNode(n, tail, Chain(), |nodes| + 1);
      assert Insert(Chain(), |nodes| + 1, n) == [head] + (nodes + [n]) + [tail];
      count, nodes := count + 1, nodes + [n];
    }

    method InsertAfter(onlist: Node, n: Node, ghost i: nat)
      requires Valid() && n.prev == null && n.next == null && i < |nodes| && nodes[i] == onlist
      modifies this, Chain(), n
      ensures Valid() && nodes == Insert(old(nodes), i + 1, n)
    {
      assert Chain()[i + 1] == onlist && onlist.next == Chain()[i + 2];
      InsertAfterNode(onlist, n, Chain(), i + 1);
      InsertInside(head, nodes, tail, i + 1, n);
      count, nodes := count + 1, Insert(nodes, i + 1, n);
    }

    method InsertBefore(n: Node, onlist: Node, ghost i: nat)
      requires Valid() && n.prev == null && n.next == null && i < |nodes| && nodes[i] == onlist
      modifies this, Chain(), n
      ensures Valid() && nodes == Insert(old(nodes), i, n)
    {
      assert Chain()[i + 1] == onlist && onlist.prev == Chain()[i];
      InsertBeforeNode(n, onlist, Chain(), i + 1);
      InsertInside(head, nodes, tail, i, n);
      count, nodes := count + 1, Insert(nodes, i, n);
    }

    method Remove(n: Node, ghost i: nat)
      requires Valid() && i < |nodes| && nodes[i] == n
      modifies this, Chain()
      ensures Valid() && nodes == Delete(old(nodes), i) && n !in Chain() && n.prev == null && n.next == null
    {
      assert Chain()[i + 1] == n && n.prev == Chain()[i] && n.next == Chain()[i + 2];
      RemoveNode(n, Chain(), i + 1);
      DeleteInside(head, nodes, tail, i);
      count, nodes := count - 1, Delete(nodes, i);
    }

    /** The first thread's node, out of the list; null when the list was empty. */
    method RemHead() returns (n: Node?)
      requires Valid()
      modifies this, Chain()
      ensures Valid() && (n == null <==> old(nodes) == [])
      ensures n == null ==> nodes == []
      ensures n != null ==>
        n == old(nodes)[0] && nodes == old(nodes)[1..] && n !in Chain() && n.prev == null && n.next == null
    {
      var tln := head.next;
      assert tln == Chain()[1];
      if tln.next == null {
        assert nodes == [];
        return null;
      }
      Remove(tln, 0);
      n := tln;
    }

    /** The last thread's node, out of the list; null when the list was empty. */
    method RemTail() returns (n: Node?)
      requires Valid()
      modifies this, Chain()
      ensures Valid() && (n == null <==> old(nodes) == [])
      ensures n == null ==> nodes == []
      ensures n != null ==> n == old(nodes)[|old(nodes)| - 1] && nodes == old(nodes)[..|old(nodes)| - 1]
      ensures n != null ==> n !in Chain() && n.prev == null && n.next == null
    {
      var tln := tail.prev;
      assert tln == Chain()[|nodes|];
      if tln.prev == null {
        assert nodes == [];
        return null;
      }
      Remove(tln, |nodes| - 1);
      n := tln;
    }
  }

  /** No node is on both lists. */
  ghost predicate Apart(a: List, b: List)
    reads a, b
  {
    a != b && forall n :: n in a.Chain() ==> n !in b.Chain()
  }

  /** One pass of the first loop of wchan_wakeall: the first waiting thread, if any, goes to the private list. */
  method MoveOne(from: List, to: List) returns (moved: bool)
    requires from.Valid() && to.Valid() && Apart(from, to)
    modifies from, from.Chain(), to, to.Chain()
    ensures from.Valid() && to.Valid() && Apart(from, to)
    ensures moved <==> old(from.nodes) != []
    ensures !moved ==> from.nodes == [] && to.nodes == old(to.nodes)
    ensures moved ==> from.nodes == old(from.nodes)[1..] && to.nodes == old(to.nodes) + [old(from.nodes)[0]]
  {
    hide Linked;
    assert forall i :: 0 <= i < |to.Chain()| ==>
        to.Chain()[i] !in from.Chain();
    var n := from.RemHead();
    if n == null {
      return false;
    }
    assert n == old(from.Chain())[1] && n !in to.Chain();
    assert forall i :: 0 <= i < |from.Chain()| ==>
        from.Chain()[i] !in to.Chain() && from.Chain()[i] != n;
    to.AddTail(n);
    moved := true;
  }

  /** The first loop of wchan_wakeall: every thread moves to the private list, in the order it was waiting. */
  method MoveAll(from: List, to: List)
    requires from.Valid() && to.Valid() && Apart(from, to)
    modifies from, from.Chain(), to, to.Chain()
    ensures from.Valid() && to.Valid() && from.nodes == [] && to.nodes == old(to.nodes) + old(from.nodes)
  {
    hide Linked;
    var moved := true;
    while moved
      invariant from.Valid() && to.Valid() && Apart(from, to)
      invariant to.nodes + from.nodes == old(to.nodes) + old(from.nodes)
      invariant forall n :: n in from.Chain() || n in to.Chain() ==> n in old(from.Chain()) || n in old(to.Chain())
      invariant !moved ==> from.nodes == []
      decreases |from.nodes|, moved
    {
      ghost var f, t := from.nodes, to.nodes;
      assert forall i :: 0 <= i < |from.Chain()| ==>
        from.Chain()[i] in old(from.Chain()) || from.Chain()[i] in old(to.Chain());
      assert forall i :: 0 <= i < |to.Chain()| ==>
        to.Chain()[i] in old(from.Chain()) || to.Chain()[i] in old(to.Chain());
      moved := MoveOne(from, to);
      assert moved ==> f == [f[0]] + f[1..] && (t + [f[0]]) + f[1..] == t + f;
    }
    assert to.nodes + [] == to.nodes;
  }
}
