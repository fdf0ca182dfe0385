/**
 * Runs of the subpage allocator: whatever clients allocate, free and store, the heap invariant holds after
 * every step, and what a client stored in its block stays there until it stores again or frees the block.
 */
module HeapRuns {
  import opened HeapPages
  import opened HeapState
  import opened KernelHeap

  ghost predicate Run(hs: seq<Heap>, ops: seq<HeapOp>) {
    |hs| == |ops| + 1 && forall i :: 0 <= i < |ops| ==> Step(hs[i], ops[i], After(hs, i))
  }

  ghost function After(hs: seq<Heap>, i: nat): Heap
    requires i + 1 < |hs|
  {
    hs[i + 1]
  }

  lemma TakeKeepsInv(h: Heap, t: nat, sz: nat, p: int)
    requires Inv(h) && t < NSIZES && sz <= SIZES[t] && |h.same| == NSIZES && p in h.same[t] && 0 <= p < |h.prs|
    requires p in h.free && h.free[p] != []
    ensures Inv(AllocFrom(h, p, sz)) && h.free[p][0] !in h.live
  {
    hide SizeOf, BlockType, PageAddr, NumBlocks, Consistent, Inv, AllocFrom;
    InvAlloc(h);
    ListWalk(h, t);
    var k :| 0 <= k < |h.same[t]| && h.same[t][k] == p;
    AllocKeepsInv(h, p, sz);
  }

  lemma FreshKeepsInv(h: Heap, h': Heap, t: nat, sz: nat, p: int, pg: int, ptr: int)
    requires Inv(h) && t < NSIZES && sz <= SIZES[t] && FreshlyAllocated(h, h', p, pg, t, sz, ptr)
    ensures Inv(h')
  {
    hide SizeOf, BlockType, PageAddr, NumBlocks, Consistent, Inv, AllocFrom, AddPage, FreshPage;
    AddedPage(h, p, pg, t, h'.mem);
    AllocKeepsInv(AddPage(h, p, pg, t, h'.mem), p, sz);
  }

  lemma WhereRemoved(h: Heap, h': Heap, a: int) returns (t: nat, i: nat, j: nat)
    requires FreedBlock(h, h', a) && LastOn(h.live, a)
    ensures Placed(PushBlock(h, a, h'.mem), h.live[a].page, t, i, j)
    ensures var h1 := PushBlock(h, a, h'.mem);
      t < |h1.same| == |h1.sizebases| && i < |h1.same[t]| && j < |h1.all| &&
      h' == RemovePage(h1, h.live[a].page, t, i, j)
  {
    hide IsList, PushBlock, RemovePage, BlockType, BlockLinked, LastOn;
    var h1 := PushBlock(h, a, h'.mem);
    t, i, j :| Placed(h1, h.live[a].page, t, i, j) && h' == RemovePage(h1, h.live[a].page, t, i, j);
  }

  lemma GiveKeepsInv(h: Heap, h': Heap, a: int)
    requires Inv(h) && FreedBlock(h, h', a)
    ensures Inv(h')
  {
    hide SizeOf, BlockType, PageAddr, NumBlocks, Consistent, Inv, PushBlock, RemovePage, BlockLinked, LastOn, Placed;
    PushedBlock(h, a, h'.mem);
    var p := h.live[a].page;
    if LastOn(h.live, a) {
      var t, i, j := WhereRemoved(h, h', a);
      RemovedPage(h, a, h'.mem, t, i, j);
    }
  }

  lemma StepKeepsInv(h: Heap, op: HeapOp, h': Heap)
    requires Inv(h) && Step(h, op, h')
    ensures Inv(h')
  {
    hide Inv, FreshlyAllocated, FreedBlock, AllocFrom, ClientWrite, Consistent;
    match op
    case Take(t, sz, p) => TakeKeepsInv(h, t, sz, p);
    case Fresh(t, sz, p, pg, ptr) => FreshKeepsInv(h, h', t, sz, p, pg, ptr);
    case Give(a) => GiveKeepsInv(h, h', a);
    case Store(a) =>
      InvAlloc(h);
      ClientWriteInv(h, h', a);
  }

  /** The heap invariant holds at every point of every run. */
  lemma {:induction false} RunKeepsInv(hs: seq<Heap>, ops: seq<HeapOp>, n: nat)
    requires Run(hs, ops) && Inv(hs[0]) && n < |hs|
    ensures Inv(hs[n])
  {
    hide Inv, Step;
    if n > 0 {
      RunKeepsInv(hs, ops, n - 1);
      assert After(hs, n - 1) == hs[n];
      StepKeepsInv(hs[n - 1], ops[n - 1], hs[n]);
    }
  }

  /** So it does in every run of an allocator that starts with no pages, whatever its memory and records hold. */
  lemma RunFromEmpty(hs: seq<Heap>, ops: seq<HeapOp>, mem: Memory, prs: seq<PageRef>, n: nat)
    requires Run(hs, ops) && hs[0] == EmptyHeap(mem, prs) && n < |hs|
    ensures Inv(hs[n])
  {
    hide Step;
    EmptyHeapInv(mem, prs);
    RunKeepsInv(hs, ops, n);
  }

  /** A fresh page goes to the front of both its lists, so it is the first one the next allocation of its size tries. */
  lemma FreshIsFirst(h: Heap, h': Heap, t: nat, sz: nat, p: int, pg: int, ptr: int)
    requires Step(h, Fresh(t, sz, p, pg, ptr), h')
    ensures t < |h.same| == |h'.same| && h'.all == [p] + h.all && h'.same == h.same[t := [p] + h.same[t]]
    ensures 0 <= p < |h'.prs| && PageAddr(h'.prs[p]) == pg && SizeOf(h'.prs[p]) == SIZES[t]
    ensures p in h'.free && h'.free[p] == Blocks(pg, SIZES[t], NumBlocks(SIZES[t]))[1..] && ptr in h'.live
    ensures h'.live == h.live[ptr := Live(p, sz)]
  {
    FreshGeometry(h, pg, t);
    hide Blocks, NumBlocks, PageAddr, SizeOf;
    SameGeometry(FreshRef(h, pg, t), h'.prs[p]);
  }

  /** A freed block whose page stays is the first one the next allocation from that page takes. */
  lemma FreedIsNext(h: Heap, h': Heap, a: int)
    requires Step(h, Give(a), h') && !LastOn(h.live, a)
    ensures var p := h.live[a].page; p in h.free && p in h'.free && h'.free == h.free[p := [a] + h.free[p]]
    ensures h'.live == h.live - {a} && h'.all == h.all && h'.same == h.same
  {
  }

  // ---------------------------------------------------------------- contents of live blocks

  /** x is a word of live block a. */
  ghost predicate WordOf(h: Heap, a: int, x: int) {
    a in h.live && 0 <= h.live[a].page < |h.prs| && a <= x < a + SizeOf(h.prs[h.live[a].page])
  }

  /** A write inside the block of another live block misses a. */
  lemma OtherBlockMissed(h: Heap, a: int, c: int, mem': Memory, x: int)
    requires Consistent(h) && WordOf(h, a, x) && c in h.live && c != a && 0 <= h.live[c].page < |h.prs|
    requires SameOutside(h.mem, mem', c, c + SizeOf(h.prs[h.live[c].page]))
    ensures Word(mem', x) == Word(h.mem, x)
  {
    hide SizeOf, BlockType, PageAddr, NumBlocks, Consistent, Word;
    LiveAddress(h, a);
    LiveAddress(h, c);
    LiveListed(h, a);
    LiveListed(h, c);
    HeapBlocksDisjoint(h, h.live[a].page, h.live[c].page, a, c);
  }

  lemma FreshPageMissed(h: Heap, a: int, pg: int, t: nat, mem': Memory, x: int)
    requires Consistent(h) && WordOf(h, a, x) && t < NSIZES && FreshPage(h, pg, t, mem')
    ensures Word(mem', x) == Word(h.mem, x)
  {
    hide SizeOf, BlockType, PageAddr, NumBlocks, Consistent, Word, Chain;
    LiveAddress(h, a);
    LiveListed(h, a);
    ListedRange(h);
    var r := h.prs[h.live[a].page];
    BlockOfInPage(r, a);
    PageAddrAligned(r);
    PagesDisjoint(PageAddr(r), pg);
  }

  /** A step that does not concern live block a leaves it live, in place and with its contents. */
  lemma StepKeepsBlock(h: Heap, op: HeapOp, h': Heap, a: int, x: int)
    requires Inv(h) && Step(h, op, h') && WordOf(h, a, x) && op != Give(a) && op != Store(a)
    ensures WordOf(h', a, x) && h'.live[a] == h.live[a] && Word(h'.mem, x) == Word(h.mem, x)
  {
    hide SizeOf, BlockType, PageAddr, NumBlocks, Consistent, Inv, Word, IsBlock, ClientWrite, FreedBlock,
         FreshlyAllocated;
    InvAlloc(h);
    match op
    case Take(t, sz, p) =>
      TakeKeepsInv(h, t, sz, p);
      SameGeometry(h.prs[p], h'.prs[p]);
    case Fresh(t, sz, p, pg, ptr) => FreshKeepsBlock(h, h', t, sz, p, pg, ptr, a, x);
    case Give(c) => GiveKeepsBlock(h, h', c, a, x);
    case Store(c) => StoreKeepsBlock(h, h', c, a, x);
  }

  lemma StoreKeepsBlock(h: Heap, h': Heap, c: int, a: int, x: int)
    requires Consistent(h) && ClientWrite(h, h', c) && WordOf(h, a, x) && c != a
    ensures WordOf(h', a, x) && h'.live[a] == h.live[a] && Word(h'.mem, x) == Word(h.mem, x)
  {
    hide SizeOf, Consistent, Word, SameOutside;
    OtherBlockMissed(h, a, c, h'.mem, x);
  }

  lemma FreshKeepsBlock(h: Heap, h': Heap, t: nat, sz: nat, p: int, pg: int, ptr: int, a: int, x: int)
    requires Consistent(h) && t < NSIZES && FreshlyAllocated(h, h', p, pg, t, sz, ptr) && WordOf(h, a, x)
    ensures WordOf(h', a, x) && h'.live[a] == h.live[a] && Word(h'.mem, x) == Word(h.mem, x)
  {
    hide SizeOf, BlockType, PageAddr, NumBlocks, Consistent, Word, Blocks, FreshPage;
    FreshPageMissed(h, a, pg, t, h'.mem, x);
    LiveListed(h, a);
    assert h'.prs[h.live[a].page] == h.prs[h.live[a].page];
  }

  lemma GiveKeepsBlock(h: Heap, h': Heap, c: int, a: int, x: int)
    requires Inv(h) && FreedBlock(h, h', c) && WordOf(h, a, x) && c != a
    ensures WordOf(h', a, x) && h'.live[a] == h.live[a] && Word(h'.mem, x) == Word(h.mem, x)
  {
    hide SizeOf, BlockType, PageAddr, NumBlocks, Consistent, Inv, Word, Placed, LastOn, Unlink, Without, SameOutside;
    InvAlloc(h);
    OtherBlockMissed(h, a, c, h'.mem, x);
    var p, h1 := h.live[c].page, PushBlock(h, c, h'.mem);
    SameGeometry(h.prs[p], h1.prs[p]);
    if LastOn(h.live, c) {
      var t, i, j := WhereRemoved(h, h', c);
      RemovePageLists(h1, p, t, i, j);
      ContentsFrame(h1.prs, h'.prs);
    }
  }

  /** From step m to step n no free of a and no store by its holder: the block still holds the same words. */
  lemma {:induction false} RunKeepsBlock(hs: seq<Heap>, ops: seq<HeapOp>, m: nat, n: nat, a: int, x: int)
    requires Run(hs, ops) && Inv(hs[0]) && m <= n < |hs| && WordOf(hs[m], a, x)
    requires forall i :: m <= i < n ==> ops[i] != Give(a) && ops[i] != Store(a)
    ensures WordOf(hs[n], a, x) && hs[n].live[a] == hs[m].live[a] && Word(hs[n].mem, x) == Word(hs[m].mem, x)
  {
    hide Inv, Step, WordOf, Word;
    if m < n {
      RunKeepsBlock(hs, ops, m, n - 1, a, x);
      RunKeepsInv(hs, ops, n - 1);
      assert After(hs, n - 1) == hs[n];
      StepKeepsBlock(hs[n - 1], ops[n - 1], hs[n], a, x);
    }
  }
}
