/**
 * The kernel heap: kmalloc and kfree over the page records, the free lists in memory, the pool of page
 * records and the page allocator.  What alloc_kpages answers is a parameter of each call.
 */
module KernelHeap {
  import opened Arith
  import opened HeapChecks
  import opened HeapPages
  import opened HeapState
  import opened PageAccounts
  import opened PagerefPool

  /** How a free ends: done, not a subpage block, or stopped by a panic or a failed assertion. */
  datatype Outcome = Freed | NotOurs | Panicked

  /** The pages the listed records describe. */
  ghost function PageSet(h: Heap): set<int> {
    set p | p in h.all && 0 <= p < |h.prs| :: PageAddr(h.prs[p])
  }

  /** The pages obtained: none, the fresh page pg, or pg and a page va for the record pool. */
  ghost predicate AtMostOneEach(chunks: map<int, nat>, chunks': map<int, nat>, pg: int, va: int) {
    chunks' == chunks || (pg != 0 && chunks' == chunks[pg := 1]) ||
    (pg != 0 && va != 0 && chunks' == chunks[va := 1][pg := 1])
  }

  /** a is the only live block of its page. */
  ghost predicate LastOn(live: map<int, Live>, a: int)
    requires a in live
  {
    forall c :: c in live && live[c].page == live[a].page ==> c == a
  }

  /**
   * One step of the heap: a block of a listed page of size t, a block of a fresh page pg described by record p, a
   * free of block a, or a client's stores inside its block a.
   */
  datatype HeapOp =
    | Take(t: nat, sz: nat, p: int)
    | Fresh(t: nat, sz: nat, p: int, pg: int, ptr: int)
    | Give(a: int)
    | Store(a: int)
  {
    /** An allocation of sz bytes. */
    ghost predicate Allocates(size: nat) {
      (Take? || Fresh?) && sz == size
    }
  }

  ghost predicate Step(h: Heap, op: HeapOp, h': Heap) {
    match op
    case Take(t, sz, p) =>
      t < NSIZES && sz <= SIZES[t] && |h.same| == NSIZES && p in h.same[t] && 0 <= p < |h.prs| &&
      p in h.free && h.free[p] != [] && h' == AllocFrom(h, p, sz)
    case Fresh(t, sz, p, pg, ptr) => t < NSIZES && sz <= SIZES[t] && FreshlyAllocated(h, h', p, pg, t, sz, ptr)
    case Give(a) => FreedBlock(h, h', a)
    case Store(a) => ClientWrite(h, h', a)
  }

  /** ptr lies inside the page of record p. */
  ghost predicate Inside(h: Heap, p: int, ptr: int) {
    p in h.all && 0 <= p < |h.prs| && PageAddr(h.prs[p]) <= ptr < PageAddr(h.prs[p]) + PAGE_SIZE
  }

  ghost predicate OnHeapPage(h: Heap, ptr: int) {
    exists p :: Inside(h, p, ptr)
  }

  lemma InsideMeans(h: Heap, p: int, ptr: int)
    requires p in h.all && 0 <= p < |h.prs|
    ensures Inside(h, p, ptr) <==> PageAddr(h.prs[p]) <= ptr < PageAddr(h.prs[p]) + PAGE_SIZE
    ensures Inside(h, p, ptr) ==> OnHeapPage(h, ptr)
  {
  }

  lemma InsideNone(h: Heap, ptr: int)
    requires forall p :: p in h.all ==> !Inside(h, p, ptr)
    ensures !OnHeapPage(h, ptr)
  {
  }

  lemma InsideOnce(h: Heap, p: int, q: int, ptr: int)
    requires Consistent(h) && Inside(h, p, ptr) && Inside(h, q, ptr)
    ensures p == q
  {
    hide PageAddr, RefOk, ListsOk, LiveOk;
    PageAddrAligned(h.prs[p]);
    PageAddrAligned(h.prs[q]);
    if p != q {
      assert Listed(h, p) && Listed(h, q);
      PagesDisjoint(PageAddr(h.prs[p]), PageAddr(h.prs[q]));
    }
  }

  /** Whatever a client stores in a whole-page allocation, the allocator's structures are untouched. */
  lemma BigWriteInv(h: Heap, b: Books, va: int, mem': Memory)
    requires Consistent(h) && Balanced(b) && b.heapPages == PageSet(h) && va in b.big
    requires SameOutside(h.mem, mem', va, va + b.big[va] * PAGE_SIZE)
    ensures Consistent(h.(mem := mem')) && (Inv(h) ==> Inv(h.(mem := mem')))
  {
    hide SizeOf, IsBlock, BlockType, PageAddr, ListsOk, IsList, NumBlocks, BlockOf, Word;
    var h' := h.(mem := mem');
    assert ListsOk(h') by { SameLists(h, h'); }
    forall p | p in h.all
      ensures RefOk(mem', h.prs[p], h.free[p])
    {
      InRangeOf(h);
      var pg := PageAddr(h.prs[p]);
      assert pg in b.heapPages && pg in b.chunks && va in b.chunks && pg != va;
      forall i | 0 <= i < |h.free[p]|
        ensures Word(mem', h.free[p][i]) == Word(h.mem, h.free[p][i])
      {
        BlockOfInPage(h.prs[p], h.free[p][i]);
        SizeOfPositive(h.prs[p]);
      }
      ChainFrame(h.mem, mem', h.free[p]);
    }
    hide RefOk;
    assert forall p, x :: Taken(h', p, x) <==> Taken(h, p, x);
  }

  /** Where the first two blocks of a free list lie, and what the first one's word holds. */
  lemma HeadInPage(h: Heap, p: int)
    requires Consistent(h) && p in h.all && h.free[p] != []
    ensures 0 <= p < |h.prs|
    ensures var fl, r := h.free[p], h.prs[p];
      fl[0] == PageAddr(r) + r.offset && 0 <= r.offset < PAGE_SIZE && fl[0] > 0 && Word(h.mem, fl[0]) == At(fl, 1) &&
      r.nfree == |fl| &&
      (|fl| > 1 ==> PageAddr(r) <= fl[1] < PageAddr(r) + PAGE_SIZE && fl[1] > 0)
  {
    hide SizeOf, IsBlock, BlockType, PageAddr, ListsOk, IsList, NumBlocks, LiveOk;
    InRangeOf(h);
    var fl, r := h.free[p], h.prs[p];
    BlockOfInPage(r, fl[0]);
    SizeOfPositive(r);
    if |fl| > 1 {
      BlockOfInPage(r, fl[1]);
    }
  }

  /** Allocating from a page restores the invariant when that page alone may have been entirely free. */
  lemma AllocKeepsInv(h: Heap, p: int, req: nat)
    requires Consistent(h) && p in h.all && h.free[p] != [] && req <= SizeOf(h.prs[p])
    requires forall q :: Listed(h, q) && q != p ==> h.prs[q].nfree < NumBlocks(SizeOf(h.prs[q]))
    ensures Inv(AllocFrom(h, p, req)) && PageSet(AllocFrom(h, p, req)) == PageSet(h)
    ensures |AllocFrom(h, p, req).prs| == |h.prs| && h.free[p][0] !in h.live
  {
    hide SizeOf, IsBlock, BlockType, PageAddr, ListsOk, IsList, NumBlocks, RefOk, LiveOk, BlockOf, PagesOk, Consistent;
    AllocFromInv(h, p, req);
    FullPage(h, p);
    ListedRange(h);
    var h' := AllocFrom(h, p, req);
    assert SameLinks(h.prs, h'.prs);
    GeometryFrame(h.prs, h'.prs);
    SamePages(h, h');
  }

  lemma InvAlloc(h: Heap)
    requires Inv(h)
    ensures Consistent(h) && |h.same| == NSIZES == |h.sizebases|
    ensures forall q :: Listed(h, q) ==> h.prs[q].nfree < NumBlocks(SizeOf(h.prs[q]))
  {
    hide RefOk, LiveOk, IsList;
  }

  lemma ListedRange(h: Heap)
    requires Consistent(h)
    ensures ListsOk(h) && |h.same| == NSIZES == |h.sizebases|
    ensures forall p :: p in h.all <==> Listed(h, p)
  {
    hide RefOk, LiveOk, IsList;
  }

  lemma SamePages(h: Heap, h': Heap)
    requires h'.all == h.all && |h'.prs| == |h.prs|
    requires forall p :: p in h.all && 0 <= p < |h.prs| ==> PageAddr(h'.prs[p]) == PageAddr(h.prs[p])
    ensures PageSet(h') == PageSet(h)
  {
  }

  // ---------------------------------------------------------------- carving a fresh page

  function BlockAddr(pg: int, size: nat, k: int): int { pg + k * size }

  lemma BlockAddrOrder(pg: int, size: nat, k: int, l: int)
    requires size > 0 && k < l
    ensures BlockAddr(pg, size, k) + size <= BlockAddr(pg, size, l)
  {
    MulLeft(size, k + 1, l);
  }

  /** The first n blocks' words link each block to the one below it, and the lowest to nothing. */
  ghost predicate Carved(mem: Memory, pg: int, size: nat, n: nat) {
    forall k :: 0 <= k < n ==> Word(mem, BlockAddr(pg, size, k)) == if k == 0 then NULL else BlockAddr(pg, size, k - 1)
  }

  lemma CarveOne(mem: Memory, pg: int, size: nat, n: nat)
    requires size > 0 && Carved(mem, pg, size, n)
    ensures Carved(mem[BlockAddr(pg, size, n) := if n == 0 then NULL else BlockAddr(pg, size, n - 1)], pg, size, n + 1)
  {
    hide BlockAddr;
    var v := if n == 0 then NULL else BlockAddr(pg, size, n - 1);
    var mem' := mem[BlockAddr(pg, size, n) := v];
    assert Word(mem', BlockAddr(pg, size, n)) == v;
    forall k | 0 <= k < n
      ensures Word(mem', BlockAddr(pg, size, k)) == Word(mem, BlockAddr(pg, size, k))
    {
      BlockAddrOrder(pg, size, k, n);
    }
  }

  lemma CarvedAt(pg: int, size: nat, n: nat, i: nat)
    requires i < n
    ensures |Blocks(pg, size, n)| == n && Blocks(pg, size, n)[i] == BlockAddr(pg, size, n - 1 - i)
  {
    BlocksAt(pg, size, n, i);
  }

  /** A carved page's links are its full free list, highest block first. */
  lemma CarvedChain(mem: Memory, pg: int, size: nat, n: nat)
    requires Carved(mem, pg, size, n)
    ensures Chain(mem, Blocks(pg, size, n))
  {
    hide BlockAddr, Blocks;
    var s := Blocks(pg, size, n);
    BlocksLength(pg, size, n);
    forall i | 0 <= i < n
      ensures Word(mem, s[i]) == At(s, i + 1)
    {
      var k := n - 1 - i;
      CarvedAt(pg, size, n, i);
      assert Word(mem, BlockAddr(pg, size, k)) == if k == 0 then NULL else BlockAddr(pg, size, k - 1);
      if i + 1 < n {
        CarvedAt(pg, size, n, i + 1);
      }
    }
  }

  /** The smallest block size that holds sz bytes. */
  ghost predicate FittingType(t: int, sz: nat) {
    0 <= t < NSIZES && sz <= SIZES[t] && forall j :: 0 <= j < t ==> SIZES[j] < sz
  }

  /** Page p is the first of its size's list that has a free block. */
  ghost predicate FirstWithFree(h: Heap, t: nat, p: int) {
    t < |h.same| && p in h.free && h.free[p] != [] &&
    exists i :: 0 <= i < |h.same[t]| && h.same[t][i] == p && NoneFree(h.free, h.same[t][..i])
  }

  /** No page of the list has a free block. */
  ghost predicate NoneFree(free: map<int, seq<int>>, s: seq<int>) {
    forall p :: p in s ==> p in free && free[p] == []
  }

  lemma NoneFreeEmpty(free: map<int, seq<int>>, s: seq<int>)
    ensures NoneFree(free, s[..0])
  {
  }

  lemma NoneFreeNext(free: map<int, seq<int>>, s: seq<int>, i: nat)
    requires i < |s| && NoneFree(free, s[..i]) && s[i] in free && free[s[i]] == []
    ensures NoneFree(free, s[..i + 1])
  {
    assert s[..i + 1] == s[..i] + [s[i]];
  }

  class Allocator {
    var mem: Memory
    /** The records, by pool index; those not in use hold anything. */
    var prs: seq<PageRef>
    var sizebases: seq<int>
    var allbase: int
    const pool: Pool

    ghost var all: seq<int>
    ghost var same: seq<seq<int>>
    ghost var free: map<int, seq<int>>
    ghost var live: map<int, Live>
    ghost var big: map<int, nat>
    ghost var chunks: map<int, nat>

    ghost function State(): Heap
      reads this
    {
      Heap(mem, prs, sizebases, allbase, all, same, free, live)
    }

    ghost function Accounts(): Books
      reads this, pool
    {
      Books(PageSet(State()), PagesOf(pool.page), big, chunks)
    }

    ghost predicate Valid()
      reads this, pool
    {
      Inv(State()) && pool.Valid() && Elements(all) == pool.out && |prs| == |pool.page| * PER && Balanced(Accounts())
    }

    constructor (mem0: Memory, records: seq<PageRef>, roots: nat)
      requires |records| == roots * PER
      ensures Valid() && State() == EmptyHeap(mem0, records) && big == map[] && chunks == map[]
      ensures fresh(pool) && pool.NoLeak() && pool.pending == {}
    {
      var p := new Pool(roots);
      mem, prs, sizebases, allbase := mem0, records, seq(NSIZES, _ => NIL), NIL;
      pool := p;
      all, same, free, live, big, chunks := [], seq(NSIZES, _ => []), map[], map[], map[], map[];
    }

    // ------------------------------------------------------------ allocating

    /** doalloc: the head of record p's free list becomes the client's block. */
    method DoAlloc(p: int, sz: nat) returns (ptr: int)
      requires Consistent(State()) && p in all && free[p] != [] && sz <= SizeOf(prs[p])
      modifies this`prs, this`free, this`live
      ensures State() == AllocFrom(old(State()), p, sz) && ptr == old(free[p][0]) && ptr > 0
    {
      hide SizeOf, IsBlock, BlockType, PageAddr, ListsOk, IsList, NumBlocks, LiveOk;
      InRangeOf(State());
      var r := prs[p];
      ghost var fl := free[p];
      HeadInPage(State(), p);
      var prpage := PageAddr(r);
      assert r.offset < PAGE_SIZE;
      ptr := prpage + r.offset;
      var next := Word(mem, ptr);
      r := r.(nfree := r.nfree - 1);
      if next != NULL {
        assert r.nfree > 0 && next - prpage < PAGE_SIZE;
        r := r.(offset := next - prpage);
      } else {
        assert r.nfree == 0;
        r := r.(offset := INVALID_OFFSET);
      }
      prs := prs[p := r];
      free := free[p := fl[1..]];
      live := live[ptr := Live(p, sz)];
    }

    /** The walk along one size's list: the first page with a free block, NIL when every page is full. */
    method FindFree(t: nat) returns (pr: int, ghost i: nat)
      requires Valid() && t < NSIZES && |same| == NSIZES
      ensures i <= |same[t]| && pr == NextInSeq(same[t], i) && NoneFree(free, same[t][..i])
      ensures pr != NIL ==> i < |same[t]| && pr in all && pr in free && free[pr] != []
      ensures pr != NIL ==> 0 <= pr < |prs| && SizeOf(prs[pr]) == SIZES[t]
      ensures pr == NIL ==> i == |same[t]|
    {
      hide SizeOf, Balanced, Consistent, PageSet, Inv, Pool.Valid, PagesOf, NoneFree;
      InvAlloc(State());
      ListWalk(State(), t);
      pr := sizebases[t];
      i := 0;
      NoneFreeEmpty(free, same[t]);
      while pr != NIL
        invariant i <= |same[t]| && pr == NextInSeq(same[t], i)
        invariant NoneFree(free, same[t][..i])
        decreases |same[t]| - i
      {
        assert pr == same[t][i];
        if prs[pr].nfree > 0 {
          return;
        }
        NoneFreeNext(free, same[t], i);
        pr := prs[pr].nextSame;
        i := i + 1;
      }
    }

    /** The first locked section of a subpage allocation: a block of a page already listed, if there is one. */
    method TakeFromExisting(t: nat, sz: nat) returns (ptr: int, ghost p: int)
      requires Valid() && t < NSIZES && sz <= SIZES[t]
      modifies this`prs, this`free, this`live
      ensures Valid() && |same| == NSIZES
      ensures ptr == NULL ==> State() == old(State()) && NoneFree(free, same[t])
      ensures ptr != NULL ==> exists i :: 0 <= i < |same[t]| && same[t][i] == p && NoneFree(old(free), same[t][..i])
      ensures ptr != NULL ==> p in old(free) && old(free)[p] != [] && ptr == old(free)[p][0] && 0 <= p < |old(prs)|
      ensures ptr != NULL ==> ptr !in old(live) && State() == AllocFrom(old(State()), p, sz)
    {
      hide SizeOf, Balanced, AllocFrom, Consistent, PageSet, Inv;
      InvAlloc(State());
      p := NIL;
      var pr;
      ghost var i;
      pr, i := FindFree(t);
      if pr == NIL {
        assert same[t][..i] == same[t];
        return NULL, p;
      }
      AllocKeepsInv(State(), pr, sz);
      ptr := DoAlloc(pr, sz);
      p := pr;
    }

    /** The loop that threads a fresh page's free list; it answers the offset of the last block. */
    method CarvePage(pg: int, t: nat) returns (offset: int)
      requires t < NSIZES
      modifies this`mem
      ensures SameOutside(old(mem), mem, pg, pg + PAGE_SIZE)
      ensures Chain(mem, Blocks(pg, SIZES[t], NumBlocks(SIZES[t])))
      ensures offset == (NumBlocks(SIZES[t]) - 1) * SIZES[t]
    {
      var size, nfree := SIZES[t], PAGE_SIZE / SIZES[t];
      SizesDividePage(t);
      BlockAddrOrder(pg, size, 0, nfree);
      hide BlockAddr, SameOutside;
      assert BlockAddr(pg, size, 0) == pg && BlockAddr(pg, size, nfree) == pg + PAGE_SIZE by { CarveBounds(pg, t); }
      ghost var mem0 := mem;
      var fl := pg;
      CarveOne(mem, pg, size, 0);
      WriteInside(mem0, mem, pg, pg + PAGE_SIZE, fl, NULL);
      mem := mem[fl := NULL];
      var i := 1;
      while i < nfree
        invariant 1 <= i <= nfree && fl == BlockAddr(pg, size, i - 1)
        invariant Carved(mem, pg, size, i) && SameOutside(mem0, mem, pg, pg + PAGE_SIZE)
      {
        CarveOne(mem, pg, size, i);
        BlockAddrOrder(pg, size, 0, i);
        BlockAddrOrder(pg, size, i, nfree);
        BlockAddrOrder(pg, size, i - 1, i);
        fl := BlockAddr(pg, size, i);
        assert fl != BlockAddr(pg, size, i - 1);
        WriteInside(mem0, mem, pg, pg + PAGE_SIZE, fl, BlockAddr(pg, size, i - 1));
        mem := mem[fl := BlockAddr(pg, size, i - 1)];
        i := i + 1;
      }
      CarvedChain(mem, pg, size, nfree);
      offset := fl - pg;
      assert offset == (nfree - 1) * size by { CarveTop(pg, size, nfree); }
    }

    /** The fresh page's record is filled in and put at the head of both lists. */
    method ListFreshPage(rec: int, t: nat, pg: int)
      requires t < NSIZES && |sizebases| == NSIZES == |same| && 0 <= rec < |prs|
      modifies this`mem, this`prs, this`sizebases, this`allbase, this`all, this`same, this`free
      ensures State() == AddPage(old(State()), rec, pg, t, mem)
      ensures SameOutside(old(mem), mem, pg, pg + PAGE_SIZE)
      ensures Chain(mem, Blocks(pg, SIZES[t], NumBlocks(SIZES[t]))) && all == [rec] + old(all)
    {
      hide AddPage, MkPab, NumBlocks, SameOutside, Chain, Blocks;
      ghost var h := State();
      var offset := CarvePage(pg, t);
      assert PAGE_SIZE / SIZES[t] == NumBlocks(SIZES[t]) by { SizesDividePage(t); NumBlocksQuotient(t); }
      prs := prs[rec := PageRef(sizebases[t], allbase, MkPab(pg, t), offset, PAGE_SIZE / SIZES[t])];
      sizebases := sizebases[t := rec];
      allbase := rec;
      all, same := [rec] + all, same[t := [rec] + same[t]];
      free := free[rec := Blocks(pg, SIZES[t], NumBlocks(SIZES[t]))];
      AddedState(h, rec, pg, t, mem);
    }

    /** Record rec describes the fresh page pg, and the page's highest block goes to the client. */
    method UseFreshPage(rec: int, t: nat, sz: nat, pg: int, ghost b: Books) returns (ptr: int)
      requires Inv(State()) && Balanced(b) && b.heapPages == PageSet(State()) && pg != 0 && Answer(b.chunks, pg, 1)
      requires t < NSIZES && sz <= SIZES[t] && 0 <= rec < |prs| && rec !in all
      modifies this`mem, this`prs, this`sizebases, this`allbase, this`all, this`same, this`free, this`live
      ensures Inv(State()) && FreshlyAllocated(old(State()), State(), rec, pg, t, sz, ptr) && ptr != NULL
      ensures PageSet(State()) == PageSet(old(State())) + {pg} && |prs| == old(|prs|)
      ensures Elements(all) == Elements(old(all)) + {rec}
    {
      hide SizeOf, IsBlock, BlockType, PageAddr, IsList, NumBlocks, Balanced, AllocFrom, AddPage, Consistent, PageSet,
           FreshPage, Answer, MkPab, Blocks, FreshlyAllocated, Inv, RefOk, LiveOk, ListsOk, PagesOk, Chain, SameOutside;
      ghost var h := State();
      InvAlloc(h);
      ListFreshPage(rec, t, pg);
      FreshDone(h, b, rec, pg, t, mem, sz);
      ptr := DoAlloc(rec, sz);
    }

    /**
     * The locked section entered with a fresh page pg from alloc_kpages.  A bit is marked in the pool; if that root has
     * no page yet the lock is dropped, here without anybody else taking it, and va answers the request for one.
     * Without a record the fresh page is given back and nothing has changed.
     */
    method AllocFromFresh(t: nat, sz: nat, pg: int, va: int) returns (ptr: int, ghost p: int)
      requires Valid() && t < NSIZES && sz <= SIZES[t]
      requires pg != 0 && Answer(chunks, pg, 1) && Answer(chunks, va, 1)
      requires va != 0 ==> va != pg && Apart(pg, 1, va, 1)
      modifies this, pool
      ensures Valid() && big == old(big) && pool.pending == old(pool.pending)
      ensures va != 0 && old(pool.NoLeak()) ==> pool.NoLeak()
      ensures ptr == NULL ==> State() == old(State()) && chunks == old(chunks)
      ensures ptr == NULL && va != 0 ==> AllFull(pool.numinuse)
      ensures ptr != NULL ==> FreshlyAllocated(old(State()), State(), p, pg, t, sz, ptr)
      ensures pool.page != old(pool.page) ==> va != 0
      ensures ptr != NULL ==>
        chunks == if pool.page == old(pool.page) then old(chunks)[pg := 1] else old(chunks)[va := 1][pg := 1]
    {
      assert Answer(chunks, 0, 1);
      hide Inv, Balanced, PageSet, Answer, Apart, PagesOf, Root, Slot, Record, FreshlyAllocated, CountTrue;
      var found, r, k := pool.Reserve();
      if !found {
        return NULL, NIL;
      }
      RecordParts(r, k);
      ptr, p := FinishFresh(t, sz, pg, r, k, if pool.page[r] == 0 then va else 0);
    }

    /**
     * The rest of that section once the lock is held for good: the marked bit is k of root r, and other threads may
     * have allocated and freed in between, or given the root its page; then va goes back.  The page is carved and
     * listed, and its highest block goes to the client.
     */
    method FinishFresh(t: nat, sz: nat, pg: int, r: nat, k: nat, va: int) returns (ptr: int, ghost p: int)
      requires Valid() && t < NSIZES && sz <= SIZES[t] && k < PER && Record(r, k) in pool.pending
      requires pg != 0 && Answer(chunks, pg, 1) && Answer(chunks, va, 1)
      requires va != 0 ==> va != pg && Apart(pg, 1, va, 1)
      modifies this, pool
      ensures Valid() && big == old(big) && pool.pending == old(pool.pending) - {Record(r, k)} && p == Record(r, k)
      ensures r < |old(pool.page)| && pool.numinuse == old(pool.numinuse) && pool.inuse == old(pool.inuse)
      ensures pool.page == if old(pool.page)[r] == 0 then old(pool.page)[r := va] else old(pool.page)
      ensures ptr == NULL <==> va == 0 && old(pool.page)[r] == 0
      ensures ptr == NULL ==> State() == old(State()) && chunks == old(chunks)
      ensures ptr != NULL ==> FreshlyAllocated(old(State()), State(), p, pg, t, sz, ptr)
      ensures ptr != NULL ==>
        chunks == if old(pool.page)[r] == 0 then old(chunks)[va := 1][pg := 1] else old(chunks)[pg := 1]
      ensures ptr != NULL && old(pool.NoLeak()) ==> pool.NoLeak()
    {
      hide Balanced, PageSet, Answer, Apart, PagesOf, Root, Slot, Record, FreshlyAllocated, Inv, Pool.NoLeak;
      ghost var b := Accounts();
      assert va >= 0 && va !in PagesOf(pool.page) by { PoolPageTaken(b, va); }
      p := Record(r, k);
      var rec, kept := pool.Resume(r, k, va);
      if rec == NIL {
        return NULL, p;
      }
      RecordInPool(r, k, |pool.page|);
      ptr := UseFreshPage(rec, t, sz, pg, b);
      chunks := if kept then chunks[va := 1][pg := 1] else chunks[pg := 1];
      BooksAfterFresh(b, Accounts(), pg, va);
    }

    // ------------------------------------------------------------ freeing

    /** fill_deadbeef */
    method FillDeadbeef(a: int, len: nat)
      modifies this`mem
      ensures SameOutside(old(mem), mem, a, a + len)
      ensures forall i :: 0 <= i < len / 4 ==> Word(mem, a + 4 * i) == DEADBEEF
    {
      hide Word;
      var i := 0;
      ghost var mem0 := mem;
      while i < len / 4
        invariant 0 <= i <= len / 4
        invariant SameOutside(mem0, mem, a, a + len)
        invariant forall k :: 0 <= k < i ==> Word(mem, a + 4 * k) == DEADBEEF
      {
        WriteInside(mem0, mem, a, a + len, a + 4 * i, DEADBEEF);
        WordAfterWrite(mem, a + 4 * i, DEADBEEF);
        mem := mem[a + 4 * i := DEADBEEF];
        i := i + 1;
      }
    }

    /** The walk along the list of all pages: the page ptr lies in, NIL when it lies in none. */
    method FindPage(ptr: int) returns (pr: int, ghost j: nat)
      requires Valid()
      ensures pr == NIL <==> !OnHeapPage(State(), ptr)
      ensures pr != NIL ==> j < |all| && all[j] == pr && Inside(State(), pr, ptr) && BlockType(prs[pr]) < NSIZES
    {
      hide PageAddr, BlockType, Balanced, Consistent, PageSet, Inv, Pool.Valid, PagesOf, OnHeapPage, Inside;
      InvAlloc(State());
      AllWalk(State());
      pr := allbase;
      j := 0;
      while pr != NIL
        invariant j <= |all| && pr == NextInSeq(all, j)
        invariant forall p :: p in all[..j] ==> !Inside(State(), p, ptr)
        decreases |all| - j
      {
        assert pr == all[j] && all[..j + 1] == all[..j] + [pr];
        InsideMeans(State(), pr, ptr);
        if PageAddr(prs[pr]) <= ptr < PageAddr(prs[pr]) + PAGE_SIZE {
          return;
        }
        pr := prs[pr].nextAll;
        j := j + 1;
      }
      assert all[..j] == all;
      InsideNone(State(), ptr);
    }

    /** The block is overwritten and becomes the head of its page's free list. */
    method FreeBlock(ptr: int, p: int)
      requires Consistent(State()) && ptr in live && live[ptr].page == p && 0 <= p < |prs| && p in free
      modifies this`mem, this`prs, this`free, this`live
      ensures BlockLinked(old(State()), ptr, mem) && State() == PushBlock(old(State()), ptr, mem)
    {
      hide SizeOf, IsBlock, BlockType, PageAddr, ListsOk, IsList, NumBlocks, BlockOf, SameOutside, Word;
      ghost var h := State();
      LiveHead(h, ptr);
      var size := SizeOf(prs[p]);
      var prpage := PageAddr(prs[p]);
      var offset := ptr - prpage;
      FillDeadbeef(ptr, size);
      ghost var mem1 := mem;
      var next;
      if prs[p].offset == INVALID_OFFSET {
        next := NULL;
      } else {
        next := prpage + prs[p].offset;
        assert ptr != next;
      }
      WriteInside(h.mem, mem1, ptr, ptr + size, ptr, next);
      WordAfterWrite(mem1, ptr, next);
      mem := mem[ptr := next];
      prs := prs[p := prs[p].(offset := offset, nfree := prs[p].nfree + 1)];
      free := free[p := [ptr] + free[p]];
      live := live - {ptr};
    }

    /** remove_lists on the list of one size. */
    method UnlinkSame(p: int, t: nat) returns (ghost i: nat)
      requires ListsOk(State()) && t < NSIZES && p in same[t]
      modifies this`prs, this`sizebases, this`same
      ensures t < |old(same)| == |old(sizebases)| && i < |old(same)[t]| && old(same)[t][i] == p
      ensures prs == Unlink(old(prs), Same, old(same)[t], i) && same == old(same)[t := Without(old(same)[t], i)]
      ensures sizebases == if i == 0 then old(sizebases)[t := NextInSeq(old(same)[t], 1)] else old(sizebases)
    {
      assert IsList(prs, Same, sizebases[t], same[t]);
      hide BlockType, IsList, ListsOk;
      ListLinks(prs, Same, sizebases[t], same[t]);
      var prev, cur := NIL, sizebases[t];
      i := 0;
      while cur != NIL
        invariant i <= |same[t]| && cur == NextInSeq(same[t], i) && p !in same[t][..i]
        invariant prev == if i == 0 then NIL else same[t][i - 1]
        decreases |same[t]| - i
      {
        assert cur == same[t][i];
        if cur == p {
          break;
        }
        prev, cur := cur, prs[cur].nextSame;
        i := i + 1;
      }
      assert cur == p;
      var next := prs[p].nextSame;
      assert next == NextInSeq(same[t], i + 1);
      if prev == NIL {
        sizebases := sizebases[t := next];
      } else {
        prs := prs[prev := prs[prev].(nextSame := next)];
      }
      same := same[t := Without(same[t], i)];
    }

    /** remove_lists on the list of all pages. */
    method UnlinkAll(p: int) returns (ghost j: nat)
      requires IsList(prs, All, allbase, all) && p in all
      modifies this`prs, this`allbase, this`all
      ensures j < |old(all)| && old(all)[j] == p
      ensures prs == Unlink(old(prs), All, old(all), j) && all == Without(old(all), j)
      ensures allbase == if j == 0 then NextInSeq(old(all), 1) else old(allbase)
    {
      hide IsList;
      ListLinks(prs, All, allbase, all);
      var prev, cur := NIL, allbase;
      j := 0;
      while cur != NIL
        invariant j <= |all| && cur == NextInSeq(all, j) && p !in all[..j]
        invariant prev == if j == 0 then NIL else all[j - 1]
        decreases |all| - j
      {
        assert cur == all[j];
        if cur == p {
          break;
        }
        prev, cur := cur, prs[cur].nextAll;
        j := j + 1;
      }
      assert cur == p;
      var next := prs[p].nextAll;
      assert next == NextInSeq(all, j + 1);
      if prev == NIL {
        allbase := next;
      } else {
        prs := prs[prev := prs[prev].(nextAll := next)];
      }
      all := Without(all, j);
    }

    /** remove_lists: the record leaves both lists it is on. */
    method RemoveLists(p: int, t: nat) returns (ghost i: nat, ghost j: nat)
      requires ListsOk(State()) && t < NSIZES && p in all && BlockType(prs[p]) == t
      modifies this`prs, this`sizebases, this`same, this`allbase, this`all, this`free
      ensures Placed(old(State()), p, t, i, j) && State() == RemovePage(old(State()), p, t, i, j)
    {
      hide IsList, Unlink, Without, BlockType;
      ghost var h := State();
      i := UnlinkSame(p, t);
      SameUnlinked(h, t, i);
      j := UnlinkAll(p);
      free := free - {p};
    }

    /** Where the source gives up on a pointer into a heap page. */
    ghost predicate FreeFails(ptr: int)
      requires Valid()
      reads this, pool
    {
      OnHeapPage(State(), ptr) &&
      (ptr !in live || (LastOn(live, ptr) && pool.Stuck(live[ptr].page)))
    }

    /** The page that freeing a live block gives back: its own, if no other block of it is live. */
    ghost function PageReturned(ptr: int): set<int>
      reads this
    {
      if ptr in live && LastOn(live, ptr) && 0 <= live[ptr].page < |prs| then {PageAddr(prs[live[ptr].page])} else {}
    }

    /** The whole of page p is free: its record leaves the lists and the pool, and the page is given back. */
    method ReturnPage(p: int, t: nat, ghost h: Heap, ghost a: int) returns (ok: bool)
      requires Inv(h) && a in h.live && h.live[a].page == p && 0 <= p < |h.prs| && p in h.free && LastOn(h.live, a)
      requires BlockLinked(h, a, mem) && State() == PushBlock(h, a, mem)
      requires t < NSIZES && BlockType(prs[p]) == t
      requires pool.Valid() && Elements(all) == pool.out && |prs| == |pool.page| * PER
      requires Balanced(Accounts()) && PageSet(State()) == PageSet(h)
      modifies this, pool
      ensures ok <==> !old(pool.Stuck(p))
      ensures ok ==> Valid() && FreedBlock(h, State(), a) && chunks == old(chunks) - {PageAddr(h.prs[p])}
      ensures live == old(live) && big == old(big) && pool.page == old(pool.page) && pool.pending == old(pool.pending)
      ensures old(pool.NoLeak()) ==> pool.NoLeak()
    {
      hide SizeOf, IsBlock, BlockType, PageAddr, Consistent, Inv, Balanced, PageSet, PagesOf, LastOn, FreedBlock,
           BlockOf, BlockLinked, Pool.Stuck, Pool.NoLeak, Pool.Valid, PushBlock, RemovePage, Placed,
           OthersNotFull, ListsOk, NumBlocks;
      ghost var b := Accounts();
      PushedBlock(h, a, mem);
      var prpage := PageAddr(prs[p]);
      SameGeometry(h.prs[p], prs[p]);
      ghost var i, j := RemoveLists(p, t);
      RemovedPage(h, a, mem, t, i, j);
      ok := pool.Free(p);
      if ok {
        chunks := chunks - {prpage};
        LoseHeapPage(b, prpage);
        assert Accounts() == b.(heapPages := b.heapPages - {prpage}, chunks := b.chunks - {prpage});
      }
    }

    /** A live block of page p is freed, and the page with it if no other block of it is live. */
    method FreeLive(ptr: int, p: int) returns (ok: bool)
      requires Valid() && ptr in live && live[ptr].page == p && 0 <= p < |prs| && p in free
      requires BlockType(prs[p]) < NSIZES
      modifies this, pool
      ensures ok <==> !old(LastOn(live, ptr) && pool.Stuck(p))
      ensures ok ==> Valid() && FreedBlock(old(State()), State(), ptr) && live == old(live) - {ptr} && big == old(big)
      ensures ok ==> chunks == old(chunks) - old(PageReturned(ptr))
      ensures pool.page == old(pool.page) && pool.pending == old(pool.pending)
      ensures old(pool.NoLeak()) ==> pool.NoLeak()
    {
      hide SizeOf, IsBlock, BlockType, PageAddr, Consistent, Inv, Balanced, PageSet, PagesOf, LastOn, FreedBlock,
           BlockOf, BlockLinked, Pool.Stuck, Pool.NoLeak, Pool.Valid, PushBlock;
      ghost var h := State();
      InvAlloc(h);
      var t := BlockType(prs[p]);
      FreeBlock(ptr, p);
      PushedBlock(h, ptr, mem);
      PushedFields(h, ptr, mem);
      ok := true;
      if prs[p].nfree == PAGE_SIZE / SIZES[t] {
        ok := ReturnPage(p, t, h, ptr);
      }
    }

    /**
     * subpage_kfree.  The pointer is a live block, or else no block at all: it may lie off the heap's pages, or
     * inside one of them but not at a block's start.
     */
    method SubpageKfree(ptr: int) returns (r: Outcome)
      requires Valid()
      requires forall p :: Inside(State(), p, ptr) && BlockOf(prs[p], ptr) ==> ptr in live
      modifies this, pool
      ensures r == NotOurs <==> !OnHeapPage(old(State()), ptr)
      ensures r == NotOurs ==> Valid() && State() == old(State()) && big == old(big) && chunks == old(chunks)
      ensures r == Panicked <==> old(FreeFails(ptr))
      ensures r == Freed ==> Valid() && ptr in old(live) && FreedBlock(old(State()), State(), ptr)
      ensures r == Freed ==> live == old(live) - {ptr} && big == old(big) && pool.page == old(pool.page)
      ensures r == Freed ==> chunks == old(chunks) - old(PageReturned(ptr))
      ensures pool.pending == old(pool.pending) && (old(pool.NoLeak()) ==> pool.NoLeak())
    {
      hide SizeOf, IsBlock, BlockType, PageAddr, Consistent, Inv, Balanced, PageSet, PagesOf, LastOn, FreedBlock,
           BlockOf, Pool.Stuck, Pool.NoLeak, Pool.Valid, OnHeapPage;
      ghost var h := State();
      InvAlloc(h);
      var pr;
      ghost var j0;
      pr, j0 := FindPage(ptr);
      if pr == NIL {
        return NotOurs;
      }
      var blktype := BlockType(prs[pr]);
      var offset := ptr - PageAddr(prs[pr]);
      InsideBlock(h, pr, ptr);
      if offset >= PAGE_SIZE || offset % SIZES[blktype] != 0 {
        return Panicked;
      }
      var ok := FreeLive(ptr, pr);
      r := if ok then Freed else Panicked;
    }

    // ------------------------------------------------------------ kmalloc and kfree

    /**
     * subpage_kmalloc: pg answers the request for a fresh page and va the record pool's, where they are made.
     */
    method SubpageKmalloc(sz: nat, pg: int, va: int) returns (ptr: int, ghost op: HeapOp)
      requires Valid() && sz <= LARGEST_SUBPAGE_SIZE
      requires Answer(chunks, pg, 1) && Answer(chunks, va, 1)
      requires pg != 0 && va != 0 ==> va != pg && Apart(pg, 1, va, 1)
      modifies this, pool
      ensures Valid() && big == old(big) && SameOutside(old(mem), mem, pg, pg + PAGE_SIZE)
      ensures ptr == NULL ==> State() == old(State()) && chunks == old(chunks)
      ensures ptr == NULL ==> pg == 0 || va == 0 || AllFull(pool.numinuse)
      ensures ptr != NULL ==> op.Allocates(sz) && Step(old(State()), op, State())
      ensures forall t :: FittingType(t, sz) ==> ptr != NULL ==> op.t == t
      ensures forall t :: FittingType(t, sz) ==> t < |old(same)|
      ensures forall t :: FittingType(t, sz) ==> ptr == NULL || op.Fresh? ==> NoneFree(old(free), old(same)[t])
      ensures ptr != NULL && op.Take? ==> FirstWithFree(old(State()), op.t, op.p) && ptr == old(free)[op.p][0]
      ensures ptr != NULL && op.Fresh? ==> pg != 0 && op.pg == pg && ptr == op.ptr
      ensures ptr != NULL ==>
        ptr !in old(live) && ptr in live && live == old(live)[ptr := live[ptr]] && live[ptr].req == sz
      ensures AtMostOneEach(old(chunks), chunks, pg, va)
      ensures pool.pending == old(pool.pending) && (va != 0 && old(pool.NoLeak()) ==> pool.NoLeak())
    {
      hide SizeOf, IsBlock, BlockType, PageAddr, Consistent, Inv, Balanced, PageSet, PagesOf, Pool.NoLeak, Pool.Valid,
           Answer, Apart, AddPage, Word;
      var t := BlockTypeFor(sz);
      ghost var p;
      ptr, p := TakeFromExisting(t, sz);
      op := Take(t, sz, p);
      if ptr != NULL || pg == 0 {
        return;
      }
      ptr, p := AllocFromFresh(t, sz, pg, va);
      op := Fresh(t, sz, p, pg, ptr);
      if ptr != NULL {
        AddPageKeepsLive(old(State()), p, pg, t, mem);
      }
    }

    /** kmalloc: a block of a page, or whole pages for the larger requests; pg answers the request for pages. */
    method Kmalloc(sz: nat, pg: int, va: int) returns (ptr: int, ghost op: HeapOp)
      requires Valid() && sz < WORD
      requires Answer(chunks, pg, if sz >= LARGEST_SUBPAGE_SIZE then PagesFor(sz) else 1) && Answer(chunks, va, 1)
      requires pg != 0 && va != 0 ==> va != pg && Apart(pg, 1, va, 1)
      modifies this, pool
      ensures Valid()
      ensures ptr == NULL ==> pg == 0 || (sz < LARGEST_SUBPAGE_SIZE && (va == 0 || AllFull(pool.numinuse)))
      ensures ptr == NULL ==> State() == old(State()) && chunks == old(chunks) && big == old(big)
      ensures ptr != NULL && sz < LARGEST_SUBPAGE_SIZE ==> op.Allocates(sz) && Step(old(State()), op, State())
      ensures forall t :: FittingType(t, sz) && sz < LARGEST_SUBPAGE_SIZE ==> ptr != NULL ==> op.t == t
      ensures forall t :: FittingType(t, sz) ==> t < |old(same)|
      ensures forall t :: FittingType(t, sz) && sz < LARGEST_SUBPAGE_SIZE ==>
        ptr == NULL || op.Fresh? ==> NoneFree(old(free), old(same)[t])
      ensures ptr != NULL && sz < LARGEST_SUBPAGE_SIZE && op.Take? ==>
        FirstWithFree(old(State()), op.t, op.p) && ptr == old(free)[op.p][0]
      ensures ptr != NULL && sz < LARGEST_SUBPAGE_SIZE && op.Fresh? ==> pg != 0 && op.pg == pg && ptr == op.ptr
      ensures ptr != NULL && sz < LARGEST_SUBPAGE_SIZE ==> big == old(big)
      ensures ptr != NULL && sz < LARGEST_SUBPAGE_SIZE ==>
        ptr !in old(live) && ptr in live && live == old(live)[ptr := live[ptr]] && live[ptr].req == sz
      ensures ptr != NULL && sz >= LARGEST_SUBPAGE_SIZE ==> State() == old(State()) && ptr !in old(big)
      ensures ptr != NULL && sz >= LARGEST_SUBPAGE_SIZE ==> big == old(big)[ptr := PagesFor(sz)]
      ensures ptr != NULL && sz >= LARGEST_SUBPAGE_SIZE ==> chunks == old(chunks)[ptr := PagesFor(sz)]
      ensures sz < LARGEST_SUBPAGE_SIZE ==> AtMostOneEach(old(chunks), chunks, pg, va)
      ensures SameOutside(old(mem), mem, pg, pg + PAGE_SIZE)
      ensures forall a :: a in old(live) ==> a in live && live[a] == old(live)[a]
      ensures pool.pending == old(pool.pending) && (va != 0 && old(pool.NoLeak()) ==> pool.NoLeak())
    {
      hide SizeOf, IsBlock, BlockType, PageAddr, Consistent, Inv, Balanced, PageSet, PagesOf, Pool.NoLeak, Pool.Valid,
           Apart, PagesFor;
      InvAlloc(State());
      if sz >= LARGEST_SUBPAGE_SIZE {
        var npages := PagesFor(sz);
        op := Take(0, sz, NIL);
        if pg == 0 {
          return NULL, op;
        }
        assert pg % PAGE_SIZE == 0;
        assert pg !in big by { BigTaken(Accounts(), pg); }
        GainBig(Accounts(), pg, npages);
        big, chunks := big[pg := npages], chunks[pg := npages];
        return pg, op;
      }
      ptr, op := SubpageKmalloc(sz, pg, va);
    }

    /** kfree of a pointer kmalloc returned, or of NULL. */
    method Kfree(ptr: int) returns (ok: bool)
      requires Valid() && (ptr == NULL || ptr in live || ptr in big)
      modifies this, pool
      ensures !ok <==> old(ptr in live && LastOn(live, ptr) && pool.Stuck(live[ptr].page))
      ensures old(pool.NoLeak()) ==> pool.NoLeak() && (pool.pending == {} ==> ok)
      ensures pool.pending == old(pool.pending)
      ensures ok ==> Valid() && live == old(live) - {ptr} && big == old(big) - {ptr}
      ensures ok ==> chunks == old(chunks) - (if ptr in old(big) then {ptr} else old(PageReturned(ptr)))
      ensures ok ==> if ptr in old(live) then Step(old(State()), Give(ptr), State()) else State() == old(State())
    {
      hide SizeOf, IsBlock, BlockType, PageAddr, Consistent, Inv, Balanced, PageSet, PagesOf, LastOn, FreedBlock,
           BlockOf, Pool.Stuck, Pool.NoLeak, Pool.Valid, OnHeapPage, Inside;
      InvAlloc(State());
      NullNotHeld(State(), Accounts());
      if ptr == NULL {
        return true;
      }
      WhereHeld(State(), Accounts(), ptr);
      pool.NeverStuck();
      var r := SubpageKfree(ptr);
      if r == NotOurs {
        assert ptr % PAGE_SIZE == 0 by { BigAligned(Accounts(), ptr); }
        LoseBig(Accounts(), ptr);
        big, chunks := big - {ptr}, chunks - {ptr};
      }
      ok := r != Panicked;
    }

    // ------------------------------------------------------------ the self-checks

    /** checksubpage: every assertion of the check holds, and its walk ends after nfree blocks. */
    method CheckSubpage(pr: int) returns (nfree: nat)
      requires Valid() && pr in all && 0 <= pr < |prs| && pr in free
      ensures nfree == prs[pr].nfree
    {
      hide SizeOf, IsBlock, BlockType, PageAddr, Consistent, Inv, Balanced, PageSet, Pool.Valid, PagesOf;
      InvAlloc(State());
      FreeListShape(State(), pr);
      nfree := 0;
      if prs[pr].offset == INVALID_OFFSET {
        assert prs[pr].nfree == 0;
        return;
      }
      var prpage, size := PageAddr(prs[pr]), SizeOf(prs[pr]);
      assert prs[pr].offset < PAGE_SIZE && prs[pr].offset % size == 0;
      var fl := prpage + prs[pr].offset;
      while fl != NULL
        invariant nfree <= |free[pr]| && fl == At(free[pr], nfree) && (nfree < |free[pr]| ==> fl != NULL)
        decreases |free[pr]| - nfree
      {
        FreeListStep(State(), pr, nfree);
        assert prpage <= fl < prpage + PAGE_SIZE && (fl - prpage) % size == 0;
        assert Word(mem, fl) != fl;
        fl := Word(mem, fl);
        nfree := nfree + 1;
      }
      assert nfree == prs[pr].nfree;
    }

    /** checksubpages: the lists of the sizes and the list of all pages hold equally many records. */
    method CheckSubpages() returns (sc: nat, ac: nat)
      requires Valid()
      ensures sc == ac == |all| <= |prs|
    {
      hide SizeOf, IsBlock, BlockType, PageAddr, Consistent, Inv, Balanced, PageSet, Pool.Valid, PagesOf, IsList;
      InvAlloc(State());
      ListedRange(State());
      SizeListsCountAll(State());
      sc := 0;
      var i := 0;
      while i < NSIZES
        invariant 0 <= i <= NSIZES && sc == Counted(same, i)
      {
        var n := CheckSizeList(i);
        sc := sc + n;
        i := i + 1;
      }
      ac := CheckAllList();
      assert sc == ac;
    }

    /** The part of checksubpages that walks the list of all pages. */
    method CheckAllList() returns (n: nat)
      requires Valid()
      ensures n == |all|
    {
      hide SizeOf, IsBlock, BlockType, PageAddr, Consistent, Inv, Balanced, PageSet, Pool.Valid, PagesOf, IsList,
           ListsOk;
      InvAlloc(State());
      ListedRange(State());
      AllWalk(State());
      n := 0;
      var pr := allbase;
      while pr != NIL
        invariant n <= |all| && pr == NextInSeq(all, n)
        decreases |all| - n
      {
        assert pr == all[n] && pr in all;
        var k := CheckSubpage(pr);
        pr, n := prs[pr].nextAll, n + 1;
      }
    }

    /** The part of checksubpages that walks one size's list. */
    method CheckSizeList(t: nat) returns (n: nat)
      requires Valid() && t < NSIZES && |same| == NSIZES
      ensures n == |same[t]|
    {
      hide SizeOf, IsBlock, BlockType, PageAddr, Consistent, Inv, Balanced, PageSet, Pool.Valid, PagesOf;
      InvAlloc(State());
      ListWalk(State(), t);
      n := 0;
      var pr := sizebases[t];
      while pr != NIL
        invariant n <= |same[t]| && pr == NextInSeq(same[t], n)
        decreases |same[t]| - n
      {
        assert pr == same[t][n];
        var k := CheckSubpage(pr);
        pr, n := prs[pr].nextSame, n + 1;
      }
    }
  }

  /** size_t and addresses are 32 bits wide. */
  const WORD: nat := 0x1_0000_0000

  /** The number of pages kmalloc asks for, with the sum rounded up in 32 bits. */
  function PagesFor(sz: nat): nat { (sz + PAGE_SIZE - 1) % WORD / PAGE_SIZE }

  /** The pages asked for cover the request exactly when rounding up does not wrap. */
  lemma PagesForCovers(sz: nat)
    requires sz < WORD
    ensures PagesFor(sz) * PAGE_SIZE >= sz <==> sz <= WORD - PAGE_SIZE
    ensures sz <= WORD - PAGE_SIZE ==> PagesFor(sz) * PAGE_SIZE < sz + PAGE_SIZE
    ensures sz > WORD - PAGE_SIZE ==> PagesFor(sz) == 0
  {
  }

  /** The largest size of all asks for no page. */
  lemma PagesForWraps()
    ensures PagesFor(WORD - 1) * PAGE_SIZE < WORD - 1
  {
  }

  lemma AddPageKeepsLive(h: Heap, p: int, pg: int, t: nat, mem': Memory)
    requires t < NSIZES && |h.sizebases| == NSIZES == |h.same| && 0 <= p < |h.prs|
    ensures AddPage(h, p, pg, t, mem').live == h.live && AddPage(h, p, pg, t, mem').mem == mem'
  {
  }

  lemma BigTaken(b: Books, va: int)
    requires Balanced(b) && va !in b.chunks
    ensures va !in b.big
  {
  }

  lemma BigAligned(b: Books, va: int)
    requires Balanced(b) && va in b.big
    ensures va % PAGE_SIZE == 0
  {
  }

  lemma NullNotHeld(h: Heap, b: Books)
    requires Consistent(h) && Balanced(b)
    ensures NULL !in h.live && NULL !in b.big
  {
    hide PageAddr, SizeOf, BlockType, NumBlocks, ListsOk, RefOk, IsBlock;
    if NULL in h.live {
      LiveAddress(h, NULL);
    }
  }

  lemma LiveAddress(h: Heap, a: int)
    requires Consistent(h) && a in h.live
    ensures a > 0 && Inside(h, h.live[a].page, a) && BlockOf(h.prs[h.live[a].page], a)
  {
    hide PageAddr, SizeOf, BlockType, NumBlocks, ListsOk, IsBlock, Chain;
    var p := h.live[a].page;
    assert Taken(h, p, a);
    BlockOfInPage(h.prs[p], a);
    assert RefOk(h.mem, h.prs[p], h.free[p]);
  }

  /** A live block lies on a page of blocks, a whole-page allocation on none. */
  lemma WhereHeld(h: Heap, b: Books, ptr: int)
    requires Consistent(h) && Balanced(b) && b.heapPages == PageSet(h)
    ensures ptr in h.live ==> OnHeapPage(h, ptr) && ptr !in b.big
    ensures ptr in b.big ==> ptr !in h.live && !OnHeapPage(h, ptr) && forall p :: !Inside(h, p, ptr)
  {
    hide PageAddr, SizeOf, BlockType, NumBlocks, Consistent, IsBlock, Balanced;
    if ptr in h.live {
      LiveAddress(h, ptr);
    }
    if ptr in b.big {
      forall p
        ensures !Inside(h, p, ptr)
      {
        if Inside(h, p, ptr) {
          PageInSet(h, p);
          BigNotOnHeapPage(b, ptr, PageAddr(h.prs[p]));
        }
      }
    }
  }

  /** Where a listed page's free list starts. */
  lemma FreeListShape(h: Heap, p: int)
    requires Consistent(h) && p in h.all && 0 <= p < |h.prs| && p in h.free
    ensures h.prs[p].nfree == |h.free[p]| && SizeOf(h.prs[p]) > 0
    ensures h.prs[p].offset == INVALID_OFFSET <==> h.free[p] == []
    ensures h.free[p] != [] ==> 0 <= h.prs[p].offset < PAGE_SIZE && h.prs[p].offset % SizeOf(h.prs[p]) == 0
    ensures h.free[p] != [] ==> PageAddr(h.prs[p]) + h.prs[p].offset == h.free[p][0] != NULL
  {
    hide SizeOf, BlockType, PageAddr, ListsOk, IsList, NumBlocks, LiveOk, IsBlock;
    SizeOfPositive(h.prs[p]);
    if h.free[p] != [] {
      FreeListStep(h, p, 0);
    }
  }

  /** A pointer inside a page is a live block or is misaligned. */
  lemma InsideBlock(h: Heap, p: int, ptr: int)
    requires Consistent(h) && Inside(h, p, ptr) && (BlockOf(h.prs[p], ptr) ==> ptr in h.live)
    requires BlockType(h.prs[p]) < NSIZES
    ensures SIZES[BlockType(h.prs[p])] > 0
    ensures ptr in h.live <==> (ptr - PageAddr(h.prs[p])) % SIZES[BlockType(h.prs[p])] == 0
    ensures ptr in h.live ==> h.live[ptr].page == p && p in h.free
  {
    hide IsBlock, PageAddr, BlockType, NumBlocks, Consistent, SizeOf;
    SizeOfType(h.prs[p]);
    AlignedIsBlock(PageAddr(h.prs[p]), SizeOf(h.prs[p]), ptr);
    if ptr in h.live {
      LiveHead(h, ptr);
      var q := h.live[ptr].page;
      BlockOfInPage(h.prs[q], ptr);
      InsideOnce(h, p, q, ptr);
    }
  }

  lemma SizeOfType(r: PageRef)
    requires BlockType(r) < NSIZES
    ensures SizeOf(r) == SIZES[BlockType(r)] > 0 && NumBlocks(SizeOf(r)) * SizeOf(r) == PAGE_SIZE
  {
    SizesDividePage(BlockType(r));
  }

  lemma AlignedIsBlock(pg: int, size: nat, a: int)
    requires 0 < size && NumBlocks(size) * size == PAGE_SIZE && pg <= a < pg + PAGE_SIZE
    ensures IsBlock(pg, size, a) <==> (a - pg) % size == 0
  {
    hide NumBlocks;
    if (a - pg) % size == 0 {
      DivModUnique(PAGE_SIZE, NumBlocks(size), 0, size);
      MultipleGap(a - pg, PAGE_SIZE, size);
    }
  }

  /** The effect of a free on the heap: the block goes to its page's free list, or the whole page goes. */
  ghost predicate FreedBlock(h: Heap, h': Heap, a: int) {
    a in h.live && 0 <= h.live[a].page < |h.prs| && h.live[a].page in h.free && BlockLinked(h, a, h'.mem) &&
    var h1 := PushBlock(h, a, h'.mem);
    if LastOn(h.live, a)
    then exists t, i, j :: Placed(h1, h.live[a].page, t, i, j) && h' == RemovePage(h1, h.live[a].page, t, i, j)
    else h' == h1
  }

  lemma PushedBlock(h: Heap, a: int, mem': Memory)
    requires Inv(h) && a in h.live && 0 <= h.live[a].page < |h.prs| && h.live[a].page in h.free
    requires BlockLinked(h, a, mem')
    ensures var h1 := PushBlock(h, a, mem'); Consistent(h1) && h1.prs[h.live[a].page].pab == h.prs[h.live[a].page].pab
    ensures var h1 := PushBlock(h, a, mem');
      ListsOk(h1) && h.live[a].page in h1.all && |h1.prs| == |h.prs| && h1.all == h.all
    ensures var h1 := PushBlock(h, a, mem'); PageSet(h1) == PageSet(h) && OthersNotFull(h1, h.live[a].page)
    ensures var h1, p := PushBlock(h, a, mem'), h.live[a].page;
      h1.prs[p].nfree == NumBlocks(SizeOf(h.prs[p])) <==> LastOn(h.live, a)
    ensures !LastOn(h.live, a) ==> Inv(PushBlock(h, a, mem')) && FreedBlock(h, PushBlock(h, a, mem'), a)
  {
    hide SizeOf, IsBlock, BlockType, PageAddr, NumBlocks, RefOk, BlockOf, Consistent, BlockLinked;
    InvAlloc(h);
    var p := h.live[a].page;
    var h1 := PushBlock(h, a, mem');
    PushBlockInv(h, a, mem');
    assert SameLinks(h.prs, h1.prs);
    GeometryFrame(h.prs, h1.prs);
    SamePages(h, h1);
    ListedRange(h1);
    LiveListed(h, a);
    FullPage(h1, p);
    assert forall q :: Listed(h1, q) && q != p ==> Listed(h, q);
    LastOnIff(h.live, a);
  }

  lemma PushedFields(h: Heap, a: int, mem': Memory)
    requires a in h.live && 0 <= h.live[a].page < |h.prs| && h.live[a].page in h.free
    requires BlockType(h.prs[h.live[a].page]) < NSIZES
    ensures PushBlock(h, a, mem').live == h.live - {a}
    ensures var p := h.live[a].page; BlockType(PushBlock(h, a, mem').prs[p]) == BlockType(h.prs[p])
    ensures var p := h.live[a].page; SIZES[BlockType(h.prs[p])] > 0
    ensures var p := h.live[a].page; NumBlocks(SizeOf(h.prs[p])) == PAGE_SIZE / SIZES[BlockType(h.prs[p])]
  {
    SizesDividePage(BlockType(h.prs[h.live[a].page]));
  }

  /** No page but p's can be entirely free. */
  ghost predicate OthersNotFull(h: Heap, p: int) {
    forall q :: Listed(h, q) && q != p ==> h.prs[q].nfree < NumBlocks(SizeOf(h.prs[q]))
  }

  lemma LastOnIff(live: map<int, Live>, a: int)
    requires a in live
    ensures LastOn(live, a) <==> forall c :: c in live - {a} ==> (live - {a})[c].page != live[a].page
  {
    var rest := live - {a};
    assert forall c :: c in live && c != a <==> c in rest;
  }

  lemma LiveListed(h: Heap, a: int)
    requires Consistent(h) && a in h.live
    ensures h.live[a].page in h.all
  {
    hide SizeOf, IsBlock, BlockType, PageAddr, NumBlocks, RefOk, BlockOf;
    assert Taken(h, h.live[a].page, a);
  }

  lemma RemovedPage(h: Heap, a: int, mem': Memory, t: nat, i: nat, j: nat)
    requires Inv(h) && a in h.live && 0 <= h.live[a].page < |h.prs| && h.live[a].page in h.free
    requires BlockLinked(h, a, mem')
    requires LastOn(h.live, a) && Placed(PushBlock(h, a, mem'), h.live[a].page, t, i, j)
    ensures var h2 := RemovePage(PushBlock(h, a, mem'), h.live[a].page, t, i, j); Inv(h2) && FreedBlock(h, h2, a)
    ensures var h2 := RemovePage(PushBlock(h, a, mem'), h.live[a].page, t, i, j);
      PageSet(h2) == PageSet(h) - {PageAddr(h.prs[h.live[a].page])}
    ensures PageAddr(h.prs[h.live[a].page]) in PageSet(h)
    ensures var h2 := RemovePage(PushBlock(h, a, mem'), h.live[a].page, t, i, j);
      |h2.prs| == |h.prs| && Elements(h2.all) == Elements(h.all) - {h.live[a].page}
  {
    hide SizeOf, IsBlock, BlockType, PageAddr, NumBlocks, RefOk, BlockOf, Consistent, BlockLinked, Unlink, Without,
         IsList, ListsOk, PageSet;
    var p := h.live[a].page;
    var h1 := PushBlock(h, a, mem');
    PushedBlock(h, a, mem');
    LastOnIff(h.live, a);
    InRangeOf(h1);
    PlacedRange(h1, p, t, i, j);
    RemovePageInv(h1, p, t, i, j);
    RemovePageLists(h1, p, t, i, j);
    RemovedFields(h, h1, p, t, i, j);
    var h2 := RemovePage(h1, p, t, i, j);
    ContentsFrame(h1.prs, h2.prs);
    assert forall q :: Listed(h2, q) ==> Listed(h1, q) && q != p;
    PagesAfterRemove(h1, h2, p);
    SameGeometry(h.prs[p], h1.prs[p]);
    PageInSet(h, p);
  }

  lemma PageInSet(h: Heap, p: int)
    requires p in h.all && 0 <= p < |h.prs|
    ensures PageAddr(h.prs[p]) in PageSet(h)
  {
  }

  lemma PlacedRange(h: Heap, p: int, t: nat, i: nat, j: nat)
    requires Placed(h, p, t, i, j)
    ensures t < NSIZES == |h.same| == |h.sizebases| && i < |h.same[t]| && j < |h.all| && p in h.all
  {
  }

  lemma RemovedFields(h: Heap, h1: Heap, p: int, t: nat, i: nat, j: nat)
    requires Placed(h1, p, t, i, j)
    ensures RemovePage(h1, p, t, i, j).mem == h1.mem && RemovePage(h1, p, t, i, j).free == h1.free - {p}
  {
  }

  lemma PagesAfterRemove(h: Heap, h': Heap, p: int)
    requires Consistent(h) && p in h.all && SameContents(h.prs, h'.prs)
    requires forall q :: q in h'.all <==> q in h.all && q != p
    ensures PageSet(h') == PageSet(h) - {PageAddr(h.prs[p])}
  {
    hide SizeOf, IsBlock, BlockType, PageAddr, NumBlocks, RefOk, LiveOk, IsList;
    ContentsFrame(h.prs, h'.prs);
    forall x | x in PageSet(h) && x != PageAddr(h.prs[p])
      ensures x in PageSet(h')
    {
      var q :| q in h.all && 0 <= q < |h.prs| && PageAddr(h.prs[q]) == x;
      assert q in h'.all && PageAddr(h'.prs[q]) == x;
    }
    forall x | x in PageSet(h')
      ensures x in PageSet(h) && x != PageAddr(h.prs[p])
    {
      var q :| q in h'.all && 0 <= q < |h'.prs| && PageAddr(h'.prs[q]) == x;
      assert Listed(h, p) && Listed(h, q);
    }
  }

  const DEADBEEF: int := 0xdeadbeef

  lemma WordAfterWrite(mem: Memory, a: int, v: int)
    ensures Word(mem[a := v], a) == v
    ensures forall x :: x != a ==> Word(mem[a := v], x) == Word(mem, x)
  {
  }

  /** Unlinking from a list of one size leaves the list of all pages alone. */
  lemma SameUnlinked(h: Heap, t: nat, i: nat)
    requires ListsOk(h) && t < NSIZES && i < |h.same[t]|
    ensures IsList(Unlink(h.prs, Same, h.same[t], i), All, h.allbase, h.all)
  {
    hide Unlink, IsList;
    ListInRange(h.prs, Same, h.sizebases[t], h.same[t]);
    ListInRange(h.prs, All, h.allbase, h.all);
    UnlinkFrame(h.prs, Same, h.same[t], i);
    ListFrame(h.prs, Unlink(h.prs, Same, h.same[t], i), All, h.allbase, h.all);
  }

  /** The list of all pages, as the code walks it. */
  lemma AllWalk(h: Heap)
    requires Consistent(h)
    ensures h.allbase == NextInSeq(h.all, 0)
    ensures forall k :: 0 <= k < |h.all| ==> 0 <= h.all[k] < |h.prs| && BlockType(h.prs[h.all[k]]) < NSIZES
    ensures forall k :: 0 <= k < |h.all| ==> h.prs[h.all[k]].nextAll == NextInSeq(h.all, k + 1)
  {
    hide PageAddr, BlockType, RefOk, LiveOk;
    forall k | 0 <= k < |h.all|
      ensures BlockType(h.prs[h.all[k]]) < NSIZES
    {
      assert h.all[k] in h.all;
    }
  }

  /** A live block's page, and the head of that page's free list. */
  lemma LiveHead(h: Heap, a: int)
    requires Consistent(h) && a in h.live
    ensures var p := h.live[a].page; Listed(h, p) && a !in h.free[p] && BlockOf(h.prs[p], a)
    ensures var p := h.live[a].page; h.prs[p].nfree == |h.free[p]| && SizeOf(h.prs[p]) >= 16
    ensures var p := h.live[a].page; h.prs[p].offset == INVALID_OFFSET <==> h.free[p] == []
    ensures var p := h.live[a].page;
      h.free[p] != [] ==> h.free[p][0] == PageAddr(h.prs[p]) + h.prs[p].offset && h.free[p][0] != NULL
  {
    hide SizeOf, IsBlock, BlockType, PageAddr, ListsOk, IsList, NumBlocks;
    var p := h.live[a].page;
    assert Taken(h, p, a);
    SizeOfPositive(h.prs[p]);
    if h.free[p] != [] {
      BlockOfInPage(h.prs[p], h.free[p][0]);
    }
  }

  lemma CarveBounds(pg: int, t: nat)
    requires t < NSIZES
    ensures BlockAddr(pg, SIZES[t], 0) == pg && BlockAddr(pg, SIZES[t], NumBlocks(SIZES[t])) == pg + PAGE_SIZE
  {
    SizesDividePage(t);
  }

  lemma CarveTop(pg: int, size: nat, n: nat)
    ensures BlockAddr(pg, size, n - 1) - pg == (n - 1) * size
  {
  }

  lemma WriteInside(mem0: Memory, mem: Memory, lo: int, hi: int, a: int, v: int)
    requires SameOutside(mem0, mem, lo, hi) && lo <= a < hi
    ensures SameOutside(mem0, mem[a := v], lo, hi)
  {
    assert forall x :: x != a ==> Word(mem[a := v], x) == Word(mem, x);
  }

  /** The list of one size, as the code walks it. */
  lemma ListWalk(h: Heap, t: nat)
    requires Consistent(h) && t < NSIZES
    ensures |h.same| == NSIZES == |h.sizebases| && h.sizebases[t] == NextInSeq(h.same[t], 0)
    ensures forall k :: 0 <= k < |h.same[t]| ==>
      0 <= h.same[t][k] < |h.prs| && h.same[t][k] in h.all && h.same[t][k] in h.free
    ensures forall k :: 0 <= k < |h.same[t]| ==> h.prs[h.same[t][k]].nextSame == NextInSeq(h.same[t], k + 1)
    ensures forall k :: 0 <= k < |h.same[t]| ==> h.prs[h.same[t][k]].nfree == |h.free[h.same[t][k]]|
    ensures forall k :: 0 <= k < |h.same[t]| ==> SizeOf(h.prs[h.same[t][k]]) == SIZES[t]
  {
    hide PageAddr, IsBlock;
    assert IsList(h.prs, Same, h.sizebases[t], h.same[t]);
    forall k | 0 <= k < |h.same[t]|
      ensures h.same[t][k] in h.all && h.same[t][k] in h.free && h.prs[h.same[t][k]].nfree == |h.free[h.same[t][k]]|
      ensures SizeOf(h.prs[h.same[t][k]]) == SIZES[t]
    {
      assert Listed(h, h.same[t][k]);
    }
  }

  // ---------------------------------------------------------------- a fresh page in the books

  /** The books after a fresh page, and perhaps a page for the pool, have been taken in. */
  lemma BooksAfterFresh(b: Books, b': Books, pg: int, va: int)
    requires Balanced(b) && pg != 0 && Answer(b.chunks, pg, 1) && Answer(b.chunks, va, 1) && b'.big == b.big
    requires va != 0 ==> va != pg && Apart(pg, 1, va, 1)
    requires b'.heapPages == b.heapPages + {pg}
    requires (b'.poolPages == b.poolPages && b'.chunks == b.chunks[pg := 1]) ||
      (va != 0 && b'.poolPages == b.poolPages + {va} && b'.chunks == b.chunks[va := 1][pg := 1])
    ensures Balanced(b')
  {
    hide Balanced, Answer, Apart;
    if b'.chunks == b.chunks[pg := 1] && b'.poolPages == b.poolPages {
      GainHeapPage(b, pg);
      assert b' == b.(heapPages := b.heapPages + {pg}, chunks := b.chunks[pg := 1]);
    } else {
      GainPoolPage(b, va);
      AnswerApart(b.chunks, va, pg);
      var c := b.(poolPages := b.poolPages + {va}, chunks := b.chunks[va := 1]);
      GainHeapPage(c, pg);
      assert b' == c.(heapPages := c.heapPages + {pg}, chunks := c.chunks[pg := 1]);
    }
  }

  lemma AnswerApart(chunks: map<int, nat>, va: int, pg: int)
    requires Answer(chunks, va, 1) && Answer(chunks, pg, 1) && va != 0 && pg != 0 && va != pg && Apart(pg, 1, va, 1)
    ensures Answer(chunks[va := 1], pg, 1)
  {
    AnswerAfter(chunks, va, 1, pg, 1);
  }

  lemma PoolPageTaken(b: Books, va: int)
    requires Balanced(b) && Answer(b.chunks, va, 1)
    ensures va >= 0 && va !in b.poolPages
  {
  }

  lemma RecordInPool(r: nat, k: nat, roots: nat)
    requires k < PER && r < roots
    ensures 0 <= Record(r, k) < roots * PER
  {
  }

  lemma NumBlocksQuotient(t: nat)
    requires t < NSIZES && SIZES[t] > 0
    ensures NumBlocks(SIZES[t]) == PAGE_SIZE / SIZES[t]
  {
  }

  /** A page the page allocator has just handed out is the page of no listed record. */
  lemma FreshFromBooks(h: Heap, b: Books, pg: int, t: nat, mem': Memory)
    requires Balanced(b) && b.heapPages == PageSet(h) && pg != 0 && Answer(b.chunks, pg, 1) && t < NSIZES
    requires SameOutside(h.mem, mem', pg, pg + PAGE_SIZE) && Chain(mem', Blocks(pg, SIZES[t], NumBlocks(SIZES[t])))
    ensures FreshPage(h, pg, t, mem') && pg % PAGE_SIZE == 0
  {
    hide PageAddr, NumBlocks, Chain, SameOutside, Apart;
    forall q | Listed(h, q)
      ensures PageAddr(h.prs[q]) != pg
    {
      assert PageAddr(h.prs[q]) in b.heapPages;
    }
  }

  lemma AddedState(h: Heap, p: int, pg: int, t: nat, mem': Memory)
    requires t < NSIZES && |h.sizebases| == NSIZES == |h.same| && 0 <= p < |h.prs|
    ensures AddPage(h, p, pg, t, mem') ==
      h.(mem := mem', prs := h.prs[p := PageRef(h.sizebases[t], h.allbase, MkPab(pg, t),
                                                (NumBlocks(SIZES[t]) - 1) * SIZES[t], NumBlocks(SIZES[t]))],
         sizebases := h.sizebases[t := p], allbase := p, all := [p] + h.all, same := h.same[t := [p] + h.same[t]],
         free := h.free[p := Blocks(pg, SIZES[t], NumBlocks(SIZES[t]))])
  {
  }

  /** Record p is listed with a free block, and no page but p's can be entirely free. */
  ghost predicate OnlyFreshIsFree(h: Heap, p: int) {
    Consistent(h) && Listed(h, p) && h.free[p] != [] &&
    forall q :: Listed(h, q) && q != p ==> h.prs[q].nfree < NumBlocks(SizeOf(h.prs[q]))
  }

  lemma AddedPage(h: Heap, p: int, pg: int, t: nat, mem': Memory)
    requires Inv(h) && t < NSIZES && 0 <= p < |h.prs| && p !in h.all && FreshPage(h, pg, t, mem')
    requires |h.sizebases| == NSIZES == |h.same|
    ensures OnlyFreshIsFree(AddPage(h, p, pg, t, mem'), p) && AddPage(h, p, pg, t, mem').live == h.live
    ensures AddPage(h, p, pg, t, mem').free[p][0] == pg + (NumBlocks(SIZES[t]) - 1) * SIZES[t]
    ensures SizeOf(AddPage(h, p, pg, t, mem').prs[p]) == SIZES[t] && |AddPage(h, p, pg, t, mem').prs| == |h.prs|
  {
    hide Consistent, FreshPage, NumBlocks, SizeOf, MkPab;
    AddPageInv(h, p, pg, t, mem');
    SizesDividePage(t);
    BlocksAt(pg, SIZES[t], NumBlocks(SIZES[t]), 0);
    var h' := AddPage(h, p, pg, t, mem');
    forall q | Listed(h', q) && q != p
      ensures Listed(h, q) && h'.prs[q] == h.prs[q]
    {
      assert ([p] + h.all)[1..] == h.all;
    }
  }

  /** The block at ptr was allocated from pg, a fresh page that record p now describes. */
  ghost predicate FreshlyAllocated(h: Heap, h': Heap, p: int, pg: int, t: nat, sz: nat, ptr: int) {
    t < NSIZES && |h.sizebases| == NSIZES == |h.same| && 0 <= p < |h.prs| && p !in h.all &&
    FreshPage(h, pg, t, h'.mem) &&
    var h1 := AddPage(h, p, pg, t, h'.mem);
    h1.free[p] != [] && ptr == h1.free[p][0] == pg + (NumBlocks(SIZES[t]) - 1) * SIZES[t] && ptr !in h.live &&
    h' == AllocFrom(h1, p, sz)
  }

  lemma FreshDone(h: Heap, b: Books, p: int, pg: int, t: nat, mem': Memory, sz: nat)
    requires Inv(h) && Balanced(b) && b.heapPages == PageSet(h) && pg != 0 && Answer(b.chunks, pg, 1)
    requires t < NSIZES && sz <= SIZES[t] && 0 <= p < |h.prs| && p !in h.all && |h.sizebases| == NSIZES == |h.same|
    requires SameOutside(h.mem, mem', pg, pg + PAGE_SIZE) && Chain(mem', Blocks(pg, SIZES[t], NumBlocks(SIZES[t])))
    ensures var h1 := AddPage(h, p, pg, t, mem'); OnlyFreshIsFree(h1, p) && sz <= SizeOf(h1.prs[p])
    ensures var h2 := AllocFrom(AddPage(h, p, pg, t, mem'), p, sz); Inv(h2) && PageSet(h2) == PageSet(h) + {pg}
    ensures var h2 := AllocFrom(AddPage(h, p, pg, t, mem'), p, sz); |h2.prs| == |h.prs| && h2.all == [p] + h.all
    ensures var h1 := AddPage(h, p, pg, t, mem'); FreshlyAllocated(h, AllocFrom(h1, p, sz), p, pg, t, sz, h1.free[p][0])
  {
    hide Inv, Consistent, Balanced, Answer, SameOutside, Chain, Blocks, NumBlocks, SizeOf, FreshPage, AllocFrom,
         AddPage;
    FreshFromBooks(h, b, pg, t, mem');
    AddedPage(h, p, pg, t, mem');
    AllocKeepsInv(AddPage(h, p, pg, t, mem'), p, sz);
    FreshLinks(h, p, pg, t, mem', sz);
    assert Consistent(h) by { InvConsistent(h); }
    PagesAfterAdd(h, p, pg, t, mem');
  }

  lemma InvConsistent(h: Heap)
    requires Inv(h)
    ensures Consistent(h)
  {
  }

  lemma FreshLinks(h: Heap, p: int, pg: int, t: nat, mem': Memory, sz: nat)
    requires t < NSIZES && 0 <= p < |h.prs| && |h.sizebases| == NSIZES == |h.same|
    ensures var h1 := AddPage(h, p, pg, t, mem'); h1.mem == mem' && h1.live == h.live
    ensures var h1 := AddPage(h, p, pg, t, mem');
      h1.free[p] != [] ==> AllocFrom(h1, p, sz).mem == mem' && AllocFrom(h1, p, sz).all == [p] + h.all
  {
  }

  lemma PagesAfterAdd(h: Heap, p: int, pg: int, t: nat, mem': Memory)
    requires Consistent(h) && t < NSIZES && 0 <= p < |h.prs| && p !in h.all && pg % PAGE_SIZE == 0
    requires |h.sizebases| == NSIZES == |h.same|
    ensures PageSet(AddPage(h, p, pg, t, mem')) == PageSet(h) + {pg}
  {
    FreshGeometry(h, pg, t);
    hide Consistent, PageAddr, FreshRef, SizeOf, BlockType, PageSet;
    var h' := AddPage(h, p, pg, t, mem');
    assert h'.prs[p] == FreshRef(h, pg, t);
    PagesCons(h, h', p);
  }

  lemma PagesCons(h: Heap, h': Heap, p: int)
    requires |h'.prs| == |h.prs| && 0 <= p < |h.prs| && h'.all == [p] + h.all
    requires forall q :: q in h.all && 0 <= q < |h.prs| ==> h'.prs[q] == h.prs[q]
    ensures PageSet(h') == PageSet(h) + {PageAddr(h'.prs[p])}
  {
    hide PageAddr;
    assert p in h'.all && forall q :: q in h.all ==> q in h'.all;
    forall x | x in PageSet(h)
      ensures x in PageSet(h')
    {
      var q :| q in h.all && 0 <= q < |h.prs| && PageAddr(h.prs[q]) == x;
      assert q in h'.all && PageAddr(h'.prs[q]) == x;
    }
  }
}
