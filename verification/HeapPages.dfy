/**
 * Block geometry of the kernel heap: how one page is cut into equal blocks, and the free list that is
 * threaded through the first word of the free blocks.
 */
module HeapPages {
  import opened Arith
  import opened Basics

  const PAGE_SIZE: nat := 4096
  const SIZES: seq<nat> := [16, 32, 64, 128, 256, 512, 1024, 2048]
  const NSIZES: nat := 8
  const INVALID_OFFSET: nat := 0xffff
  const NULL: int := 0

  /** The null page-record pointer; records are named by their index in the pool. */
  const NIL: int := -1

  /** The largest request the subpage allocator serves is one byte less than the largest block. */
  const LARGEST_SUBPAGE_SIZE: nat := 2048

  lemma SizesDividePage(t: nat)
    requires t < NSIZES
    ensures 16 <= SIZES[t] <= 2048 && SIZES[t] % 4 == 0
    ensures NumBlocks(SIZES[t]) * SIZES[t] == PAGE_SIZE && NumBlocks(SIZES[t]) >= 2
  {
    assert SIZES == [16, 32, 64, 128, 256, 512, 1024, 2048];
    if t == 0 {
    } else if t == 1 {
    } else if t == 2 {
    } else if t == 3 {
    } else if t == 4 {
    } else if t == 5 {
    } else if t == 6 {
    } else {
      assert t == 7;
    }
  }

  function NumBlocks(size: nat): nat {
    if size == 0 then 0 else PAGE_SIZE / size
  }

  /**
   * blocktype: the first block size that is large enough; NSIZES stands for the panic on a request
   * no block can hold.
   */
  method BlockTypeFor(sz: nat) returns (t: nat)
    ensures t <= NSIZES && (t < NSIZES <==> sz <= LARGEST_SUBPAGE_SIZE)
    ensures t < NSIZES ==> sz <= SIZES[t]
    ensures forall i :: 0 <= i < t ==> SIZES[i] < sz
  {
    t := 0;
    while t < NSIZES
      invariant 0 <= t <= NSIZES
      invariant forall i :: 0 <= i < t ==> SIZES[i] < sz
    {
      if sz <= SIZES[t] {
        SizesDividePage(t);
        return;
      }
      t := t + 1;
    }
    assert SIZES[7] < sz;
  }

  // ---------------------------------------------------------------- memory words

  /** Kernel memory, by the address of each word; a word never written reads as 0. */
  type Memory = map<int, int>

  function Word(mem: Memory, a: int): int {
    if a in mem then mem[a] else 0
  }

  /** mem' differs from mem at most in the words at addresses lo..hi-1. */
  ghost predicate SameOutside(mem: Memory, mem': Memory, lo: int, hi: int) {
    forall x :: !(lo <= x < hi) ==> Word(mem', x) == Word(mem, x)
  }

  // ---------------------------------------------------------------- blocks of a page

  /** a is the address of one of the blocks of the page at pg. */
  predicate IsBlock(pg: int, size: nat, a: int) {
    size > 0 && pg <= a && a + size <= pg + PAGE_SIZE && (a - pg) % size == 0
  }

  lemma MultipleGap(x: int, y: int, size: nat)
    requires size > 0 && x % size == 0 && y % size == 0 && x < y
    ensures x + size <= y
  {
    DivModEquation(x, size);
    DivModEquation(y, size);
    MulCancelLess(x / size, y / size, size);
    MulLeft(size, x / size + 1, y / size);
  }

  /** Two blocks of a page are the same or do not overlap. */
  lemma BlocksDisjoint(pg: int, size: nat, a: int, c: int)
    requires IsBlock(pg, size, a) && IsBlock(pg, size, c) && a != c
    ensures a + size <= c || c + size <= a
  {
    if a < c {
      MultipleGap(a - pg, c - pg, size);
    } else {
      MultipleGap(c - pg, a - pg, size);
    }
  }

  /** Addresses of different pages are different. */
  lemma PagesDisjoint(pg: int, pg': int)
    requires pg % PAGE_SIZE == 0 && pg' % PAGE_SIZE == 0 && pg != pg'
    ensures pg + PAGE_SIZE <= pg' || pg' + PAGE_SIZE <= pg
  {
  }

  /** The first n blocks of a page, highest first: the order in which a fresh page's free list runs. */
  function Blocks(pg: int, size: nat, n: nat): seq<int> {
    if n == 0 then [] else [pg + (n - 1) * size] + Blocks(pg, size, n - 1)
  }

  lemma {:induction false} BlocksAt(pg: int, size: nat, n: nat, i: nat)
    requires i < n
    ensures |Blocks(pg, size, n)| == n && Blocks(pg, size, n)[i] == pg + (n - 1 - i) * size
  {
    if i > 0 {
      BlocksAt(pg, size, n - 1, i - 1);
    } else {
      BlocksLength(pg, size, n - 1);
    }
  }

  lemma {:induction false} BlocksLength(pg: int, size: nat, n: nat)
    ensures |Blocks(pg, size, n)| == n
  {
    if n > 0 {
      BlocksLength(pg, size, n - 1);
    }
  }

  /** Being a block means being one of the listed multiples. */
  lemma BlockIndex(pg: int, size: nat, a: int)
    requires 0 < size && NumBlocks(size) * size == PAGE_SIZE
    ensures IsBlock(pg, size, a) <==> exists k :: 0 <= k < NumBlocks(size) && a == pg + k * size
  {
    var n := NumBlocks(size);
    if IsBlock(pg, size, a) {
      var k := (a - pg) / size;
      DivModEquation(a - pg, size);
      MulCancelLess(-1, k, size);
      MulCancelLess(k, n, size);
      assert a == pg + k * size;
    }
    forall k | 0 <= k < n && a == pg + k * size
      ensures IsBlock(pg, size, a)
    {
      MulLeft(size, k + 1, n);
      DivModUnique(a - pg, k, 0, size);
    }
  }

  /** The listed blocks are the page's blocks, each once. */
  lemma BlocksComplete(pg: int, size: nat)
    requires 0 < size && NumBlocks(size) * size == PAGE_SIZE
    ensures var s := Blocks(pg, size, NumBlocks(size));
      |s| == NumBlocks(size) && Distinct(s) && forall a :: a in s <==> IsBlock(pg, size, a)
  {
    var n := NumBlocks(size);
    var s := Blocks(pg, size, n);
    BlocksLength(pg, size, n);
    forall i, j | 0 <= i < j < |s|
      ensures s[i] != s[j]
    {
      BlocksAt(pg, size, n, i);
      BlocksAt(pg, size, n, j);
      MulLeft(size, n - 1 - j + 1, n - 1 - i);
    }
    forall a
      ensures a in s <==> IsBlock(pg, size, a)
    {
      BlockIndex(pg, size, a);
      if a in s {
        var i :| 0 <= i < n && s[i] == a;
        BlocksAt(pg, size, n, i);
        var k := n - 1 - i;
        assert a == pg + k * size;
      }
      if IsBlock(pg, size, a) {
        var k :| 0 <= k < n && a == pg + k * size;
        BlocksAt(pg, size, n, n - 1 - k);
        assert s[n - 1 - k] == a;
      }
    }
  }

  // ---------------------------------------------------------------- counting

  function Elements<T>(s: seq<T>): set<T> {
    set x | x in s
  }

  lemma {:induction false} DistinctCount(s: seq<int>)
    requires Distinct(s)
    ensures |Elements(s)| == |s|
  {
    if s != [] {
      var t := s[..|s| - 1];
      DistinctCount(t);
      assert s[|s| - 1] !in t;
      assert Elements(s) == Elements(t) + {s[|s| - 1]};
    }
  }

  /** A free list holds no more blocks than the page has, and as many exactly when it holds every block. */
  lemma FreeListFull(pg: int, size: nat, fl: seq<int>)
    requires 0 < size && NumBlocks(size) * size == PAGE_SIZE
    requires Distinct(fl) && forall i :: 0 <= i < |fl| ==> IsBlock(pg, size, fl[i])
    ensures |fl| <= NumBlocks(size)
    ensures |fl| == NumBlocks(size) <==> forall a :: IsBlock(pg, size, a) ==> a in fl
  {
    var s := Blocks(pg, size, NumBlocks(size));
    BlocksComplete(pg, size);
    DistinctCount(s);
    DistinctCount(fl);
    assert Elements(fl) <= Elements(s);
    SubsetCount(Elements(fl), Elements(s));
    if |fl| == NumBlocks(size) {
      forall a | IsBlock(pg, size, a)
        ensures a in fl
      {
        assert a in Elements(s);
        assert a in Elements(fl);
      }
    }
    if forall a :: IsBlock(pg, size, a) ==> a in fl {
      forall a | a in Elements(s)
        ensures a in Elements(fl)
      {
        assert IsBlock(pg, size, a);
      }
      assert Elements(s) == Elements(fl);
    }
  }

  // ---------------------------------------------------------------- free lists in memory

  /** The block at place i of a free list, NULL past its end. */
  function At(fl: seq<int>, i: nat): int {
    if i < |fl| then fl[i] else NULL
  }

  /** Reading first words from fl[0] visits exactly fl and ends in NULL. */
  ghost predicate Chain(mem: Memory, fl: seq<int>) {
    forall i :: 0 <= i < |fl| ==> Word(mem, fl[i]) == At(fl, i + 1)
  }

  lemma ChainFrame(mem: Memory, mem': Memory, fl: seq<int>)
    requires Chain(mem, fl)
    requires forall i :: 0 <= i < |fl| ==> Word(mem', fl[i]) == Word(mem, fl[i])
    ensures Chain(mem', fl)
  {
  }

  lemma ChainTail(mem: Memory, fl: seq<int>)
    requires Chain(mem, fl) && fl != []
    ensures Chain(mem, fl[1..])
  {
    var t := fl[1..];
    forall i | 0 <= i < |t|
      ensures Word(mem, t[i]) == At(t, i + 1)
    {
      assert t[i] == fl[i + 1] && At(t, i + 1) == At(fl, i + 2);
    }
  }

  lemma ChainCons(mem: Memory, a: int, fl: seq<int>)
    requires Chain(mem, fl) && Word(mem, a) == At(fl, 0)
    ensures Chain(mem, [a] + fl)
  {
    var t := [a] + fl;
    forall i | 0 <= i < |t|
      ensures Word(mem, t[i]) == At(t, i + 1)
    {
      assert At(t, i + 1) == At(fl, i);
      if i > 0 {
        assert t[i] == fl[i - 1];
      }
    }
  }
}
