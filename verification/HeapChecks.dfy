/**
 * What the allocator's self-checks rely on: a free list can be followed link by link inside its page, and
 * the lists of the sizes together hold as many records as the list of all pages.
 */
module HeapChecks {
  import opened Basics
  import opened HeapPages
  import opened HeapState

  /** The records of all sizes below t, list after list. */
  function Counted(same: seq<seq<int>>, t: nat): nat
    requires t <= |same|
  {
    if t == 0 then 0 else Counted(same, t - 1) + |same[t - 1]|
  }

  ghost function OfSizesBelow(h: Heap, t: nat): set<int> {
    set p | p in h.all && 0 <= p < |h.prs| && BlockType(h.prs[p]) < t
  }

  lemma {:induction false} CountedIsSize(h: Heap, t: nat)
    requires ListsOk(h) && t <= NSIZES
    ensures |OfSizesBelow(h, t)| == Counted(h.same, t)
  {
    hide BlockType, IsList, OfSizesBelow;
    if t == 0 {
      NoSizes(h);
    } else {
      CountedIsSize(h, t - 1);
      OneMoreSize(h, t);
      DistinctCount(h.same[t - 1]);
    }
  }

  lemma NoSizes(h: Heap)
    ensures OfSizesBelow(h, 0) == {}
  {
  }

  lemma OneMoreSize(h: Heap, t: nat)
    requires ListsOk(h) && 0 < t <= NSIZES
    ensures Distinct(h.same[t - 1])
    ensures OfSizesBelow(h, t) == OfSizesBelow(h, t - 1) + Elements(h.same[t - 1])
    ensures OfSizesBelow(h, t - 1) !! Elements(h.same[t - 1])
  {
    hide BlockType, IsList, Distinct;
    ListInRange(h.prs, Same, h.sizebases[t - 1], h.same[t - 1]);
    forall p
      ensures p in h.all && BlockType(h.prs[p]) == t - 1 <==> p in h.same[t - 1]
    {
      assert p in h.all ==> p in h.same[BlockType(h.prs[p])];
    }
  }

  ghost function UpTo(n: nat): (s: set<int>)
    ensures |s| == n && forall k :: k in s <==> 0 <= k < n
  {
    if n == 0 then {} else UpTo(n - 1) + {n - 1}
  }

  /** The list of all pages is the disjoint union of the lists of the sizes, so the counts agree. */
  lemma SizeListsCountAll(h: Heap)
    requires ListsOk(h)
    ensures Counted(h.same, NSIZES) == |h.all| <= |h.prs|
    ensures forall p, t, u :: 0 <= t < NSIZES && 0 <= u < NSIZES && p in h.same[t] && p in h.same[u] ==> t == u
    ensures forall p :: p in h.all <==> exists t :: 0 <= t < NSIZES && p in h.same[t]
  {
    hide BlockType;
    CountedIsSize(h, NSIZES);
    DistinctCount(h.all);
    assert OfSizesBelow(h, NSIZES) == Elements(h.all);
    assert Elements(h.all) <= UpTo(|h.prs|);
    SubsetCount(Elements(h.all), UpTo(|h.prs|));
    forall p | p in h.all
      ensures exists t :: 0 <= t < NSIZES && p in h.same[t]
    {
      assert p in h.same[BlockType(h.prs[p])];
    }
  }

  /** Where the walk along a page's free list stands after i links, and what it may assert there. */
  lemma FreeListStep(h: Heap, p: int, i: nat)
    requires Consistent(h) && p in h.all && 0 <= p < |h.prs| && p in h.free && i < |h.free[p]|
    ensures var r, fl := h.prs[p], h.free[p];
      PageAddr(r) <= fl[i] < PageAddr(r) + PAGE_SIZE && SizeOf(r) > 0 && (fl[i] - PageAddr(r)) % SizeOf(r) == 0
    ensures var fl := h.free[p]; Word(h.mem, fl[i]) == At(fl, i + 1) != fl[i] && fl[i] != NULL
    ensures var fl := h.free[p]; i + 1 < |fl| ==> At(fl, i + 1) != NULL
  {
    hide SizeOf, BlockType, PageAddr, ListsOk, IsList, NumBlocks, LiveOk;
    var r, fl := h.prs[p], h.free[p];
    BlockOfInPage(r, fl[i]);
    SizeOfPositive(r);
    if i + 1 < |fl| {
      BlockOfInPage(r, fl[i + 1]);
    }
  }
}
