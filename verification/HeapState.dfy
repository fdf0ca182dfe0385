/**
 * The state of the subpage allocator as a value: page records on two linked lists, free lists threaded
 * through the pages, and the blocks clients hold.  The operations of the allocator are functions on it,
 * each shown to keep the heap invariant.
 */
module HeapState {
  import opened Basics
  import opened HeapPages

  /** struct pageref; records are named by their index in the pool. */
  datatype PageRef = PageRef(nextSame: int, nextAll: int, pab: int, offset: int, nfree: int)

  function PageAddr(r: PageRef): int { r.pab - r.pab % PAGE_SIZE }
  function BlockType(r: PageRef): nat { r.pab % PAGE_SIZE }

  /** MKPAB: page address and block type share a word, the type in the bits below the page. */
  function MkPab(pg: int, t: int): int { pg - pg % PAGE_SIZE + t % PAGE_SIZE }

  /** A block in a client's hands: the record of its page and the size asked for. */
  datatype Live = Live(page: int, req: nat)

  /**
   * The allocator's variables, and four views of them the code does not store: the two kinds of list as
   * sequences, each page's free list as a sequence, and the live blocks.
   */
  datatype Heap = Heap(mem: Memory, prs: seq<PageRef>, sizebases: seq<int>, allbase: int,
                       all: seq<int>, same: seq<seq<int>>, free: map<int, seq<int>>, live: map<int, Live>)

  datatype Kind = Same | All

  function Next(r: PageRef, kind: Kind): int {
    if kind == Same then r.nextSame else r.nextAll
  }

  function SetNext(r: PageRef, kind: Kind, p: int): PageRef {
    if kind == Same then r.(nextSame := p) else r.(nextAll := p)
  }

  function NextInSeq(s: seq<int>, i: nat): int {
    if i < |s| then s[i] else NIL
  }

  /** Following next pointers from head visits exactly s. */
  ghost predicate IsList(prs: seq<PageRef>, kind: Kind, head: int, s: seq<int>) {
    Distinct(s) &&
    (forall i :: 0 <= i < |s| ==> 0 <= s[i] < |prs|) &&
    head == NextInSeq(s, 0) &&
    forall i :: 0 <= i < |s| ==> Next(prs[s[i]], kind) == NextInSeq(s, i + 1)
  }

  function SizeOf(r: PageRef): nat {
    if BlockType(r) < NSIZES then SIZES[BlockType(r)] else PAGE_SIZE
  }

  lemma SizeOfPositive(r: PageRef)
    ensures 16 <= SizeOf(r) && NumBlocks(SizeOf(r)) * SizeOf(r) == PAGE_SIZE
    ensures BlockType(r) < NSIZES ==> NumBlocks(SizeOf(r)) >= 2
  {
    if BlockType(r) < NSIZES {
      SizesDividePage(BlockType(r));
    }
  }

  /** a is the address of a block of r's page. */
  ghost predicate BlockOf(r: PageRef, a: int) {
    IsBlock(PageAddr(r), SizeOf(r), a)
  }

  /** A page record agrees with the free list in its page's memory. */
  ghost predicate RefOk(mem: Memory, r: PageRef, fl: seq<int>) {
    BlockType(r) < NSIZES && PageAddr(r) > 0 &&
    Distinct(fl) && (forall i :: 0 <= i < |fl| ==> BlockOf(r, fl[i])) && Chain(mem, fl) &&
    r.nfree == |fl| && r.offset == if fl == [] then INVALID_OFFSET else fl[0] - PageAddr(r)
  }

  ghost predicate ListsOk(h: Heap) {
    |h.sizebases| == NSIZES == |h.same| &&
    (forall p :: p in h.all ==> 0 <= p < |h.prs|) &&
    IsList(h.prs, All, h.allbase, h.all) &&
    (forall t :: 0 <= t < NSIZES ==> IsList(h.prs, Same, h.sizebases[t], h.same[t])) &&
    (forall t, p :: 0 <= t < NSIZES && p in h.same[t] ==> p in h.all && BlockType(h.prs[p]) == t) &&
    (forall p :: p in h.all ==> BlockType(h.prs[p]) < NSIZES && p in h.same[BlockType(h.prs[p])])
  }

  /** p is a listed page record with a free list. */
  ghost predicate Listed(h: Heap, p: int) {
    p in h.all && 0 <= p < |h.prs| && p in h.free
  }

  ghost predicate PagesOk(h: Heap) {
    (forall p :: p in h.all ==> Listed(h, p) && RefOk(h.mem, h.prs[p], h.free[p])) &&
    (forall p, q :: Listed(h, p) && Listed(h, q) && p != q ==> PageAddr(h.prs[p]) != PageAddr(h.prs[q]))
  }

  /** a is a block of p's page that is not on its free list. */
  ghost predicate Taken(h: Heap, p: int, a: int) {
    Listed(h, p) && BlockOf(h.prs[p], a) && a !in h.free[p]
  }

  /** The live blocks are exactly the blocks of listed pages that are not on their page's free list. */
  ghost predicate LiveOk(h: Heap) {
    (forall a :: a in h.live ==>
      Taken(h, h.live[a].page, a) && h.live[a].req <= SizeOf(h.prs[h.live[a].page])) &&
    (forall p, a :: Taken(h, p, a) ==> a in h.live && h.live[a].page == p)
  }

  /** The invariant while a whole page may be free, as between getting a fresh page and allocating from it. */
  ghost predicate Consistent(h: Heap) {
    ListsOk(h) && PagesOk(h) && LiveOk(h)
  }

  /** The heap invariant between calls: besides consistency, every listed page has a live block. */
  ghost predicate Inv(h: Heap) {
    Consistent(h) && forall p :: Listed(h, p) ==> h.prs[p].nfree < NumBlocks(SizeOf(h.prs[p]))
  }

  /** The allocator at start-up: no pages, whatever memory and the records hold. */
  function EmptyHeap(mem: Memory, prs: seq<PageRef>): Heap {
    Heap(mem, prs, seq(NSIZES, _ => NIL), NIL, [], seq(NSIZES, _ => []), map[], map[])
  }

  lemma EmptyHeapInv(mem: Memory, prs: seq<PageRef>)
    ensures Inv(EmptyHeap(mem, prs))
  {
  }

  // ---------------------------------------------------------------- what the invariant gives

  lemma BlockOfInPage(r: PageRef, a: int)
    requires BlockOf(r, a)
    ensures PageAddr(r) <= a && a + SizeOf(r) <= PageAddr(r) + PAGE_SIZE && a < PageAddr(r) + PAGE_SIZE
  {
    hide PageAddr, SizeOf;
    SizeOfPositive(r);
  }

  lemma PageAddrAligned(r: PageRef)
    ensures PageAddr(r) % PAGE_SIZE == 0
  {
  }

  /** Blocks of listed pages do not overlap. */
  lemma HeapBlocksDisjoint(h: Heap, p: int, q: int, a: int, c: int)
    requires Consistent(h) && p in h.all && q in h.all
    requires BlockOf(h.prs[p], a) && BlockOf(h.prs[q], c) && a != c
    ensures a + SizeOf(h.prs[p]) <= c || c + SizeOf(h.prs[q]) <= a
  {
    hide PageAddr, SizeOf, IsBlock, NumBlocks, IsList, Chain;
    if p == q {
      BlocksDisjoint(PageAddr(h.prs[p]), SizeOf(h.prs[p]), a, c);
    } else {
      BlockOfInPage(h.prs[p], a);
      BlockOfInPage(h.prs[q], c);
      PageAddrAligned(h.prs[p]);
      PageAddrAligned(h.prs[q]);
      PagesDisjoint(PageAddr(h.prs[p]), PageAddr(h.prs[q]));
    }
  }

  /** Live blocks are big enough and never overlap each other. */
  lemma LiveBlocksDisjoint(h: Heap, a: int, c: int)
    requires Consistent(h) && a in h.live && c in h.live && a != c
    ensures a + h.live[a].req <= c || c + h.live[c].req <= a
  {
    HeapBlocksDisjoint(h, h.live[a].page, h.live[c].page, a, c);
  }

  /** No free-list word lies inside a live block. */
  lemma LiveBlocksAvoidFreeList(h: Heap, a: int, p: int, f: int)
    requires Consistent(h) && a in h.live && p in h.all && f in h.free[p]
    ensures !(a <= f < a + SizeOf(h.prs[h.live[a].page]))
  {
    hide PageAddr, SizeOf, IsBlock, NumBlocks, IsList, Chain;
    var i :| 0 <= i < |h.free[p]| && h.free[p][i] == f;
    var q := h.live[a].page;
    SizeOfPositive(h.prs[p]);
    SizeOfPositive(h.prs[q]);
    if a != f {
      HeapBlocksDisjoint(h, q, p, a, f);
    } else if p != q {
      BlockOfInPage(h.prs[p], f);
      BlockOfInPage(h.prs[q], a);
      PageAddrAligned(h.prs[p]);
      PageAddrAligned(h.prs[q]);
      PagesDisjoint(PageAddr(h.prs[p]), PageAddr(h.prs[q]));
    }
  }

  /** A page's free list is full exactly when the page has no live block. */
  lemma FullPage(h: Heap, p: int)
    requires Consistent(h) && p in h.all
    ensures h.prs[p].nfree <= NumBlocks(SizeOf(h.prs[p]))
    ensures h.prs[p].nfree == NumBlocks(SizeOf(h.prs[p])) <==> forall a :: a in h.live ==> h.live[a].page != p
  {
    hide PageAddr, SizeOf, IsBlock, NumBlocks, IsList, Chain;
    var r := h.prs[p];
    SizeOfPositive(r);
    FreeListFull(PageAddr(r), SizeOf(r), h.free[p]);
    assert forall a :: IsBlock(PageAddr(r), SizeOf(r), a) && a !in h.free[p] ==> Taken(h, p, a);
    if a :| a in h.live && h.live[a].page == p {
      assert Taken(h, p, a);
    }
  }

  // ---------------------------------------------------------------- clients writing

  /** A client stores a word inside a block it holds. */
  ghost predicate ClientWrite(h: Heap, h': Heap, a: int) {
    a in h.live && h' == h.(mem := h'.mem) && h.live[a].page in h.all &&
    0 <= h.live[a].page < |h.prs| &&
    SameOutside(h.mem, h'.mem, a, a + SizeOf(h.prs[h.live[a].page]))
  }

  /** Whatever clients write inside their blocks, the allocator's structures are untouched. */
  lemma ClientWriteInv(h: Heap, h': Heap, a: int)
    requires Consistent(h) && ClientWrite(h, h', a)
    ensures Consistent(h') && (Inv(h) ==> Inv(h'))
  {
    hide SizeOf, IsBlock, BlockType, PageAddr, ListsOk, IsList, NumBlocks, BlockOf, Word;
    assert ListsOk(h') by { SameLists(h, h'); }
    forall p | p in h.all
      ensures RefOk(h'.mem, h.prs[p], h.free[p])
    {
      forall i | 0 <= i < |h.free[p]|
        ensures Word(h'.mem, h.free[p][i]) == Word(h.mem, h.free[p][i])
      {
        LiveBlocksAvoidFreeList(h, a, p, h.free[p][i]);
      }
    }
    hide RefOk;
    assert forall p, x :: Taken(h', p, x) <==> Taken(h, p, x);
  }

  lemma SameLists(h: Heap, h': Heap)
    requires ListsOk(h) && h' == h.(mem := h'.mem, free := h'.free, live := h'.live)
    ensures ListsOk(h')
  {
  }

  // ---------------------------------------------------------------- allocating from a page

  /** doalloc: the head of p's free list goes to the client. */
  function AllocFrom(h: Heap, p: int, req: nat): Heap
    requires 0 <= p < |h.prs| && p in h.free && h.free[p] != []
  {
    var fl, r := h.free[p], h.prs[p];
    h.(prs := h.prs[p := r.(nfree := r.nfree - 1,
                            offset := if |fl| == 1 then INVALID_OFFSET else fl[1] - PageAddr(r))],
       free := h.free[p := fl[1..]],
       live := h.live[fl[0] := Live(p, req)])
  }

  lemma ListFrame(prs: seq<PageRef>, prs': seq<PageRef>, kind: Kind, head: int, s: seq<int>)
    requires IsList(prs, kind, head, s) && |prs| == |prs'|
    requires forall p :: p in s ==> 0 <= p < |prs| && Next(prs'[p], kind) == Next(prs[p], kind)
    ensures IsList(prs', kind, head, s)
  {
  }

  lemma SameGeometry(r: PageRef, r': PageRef)
    requires r'.pab == r.pab
    ensures PageAddr(r') == PageAddr(r) && BlockType(r') == BlockType(r) && SizeOf(r') == SizeOf(r)
  {
  }

  /** Records may change in any field but the list links and the page word. */
  ghost predicate SameLinks(prs: seq<PageRef>, prs': seq<PageRef>) {
    |prs| == |prs'| && forall p :: 0 <= p < |prs| ==>
      prs'[p].pab == prs[p].pab && prs'[p].nextSame == prs[p].nextSame && prs'[p].nextAll == prs[p].nextAll
  }

  lemma ListsFrame(h: Heap, h': Heap)
    requires ListsOk(h) && SameLinks(h.prs, h'.prs)
    requires h'.sizebases == h.sizebases && h'.allbase == h.allbase && h'.all == h.all && h'.same == h.same
    ensures ListsOk(h')
  {
    hide SizeOf, PageAddr;
    ListFrame(h.prs, h'.prs, All, h.allbase, h.all);
    forall t | 0 <= t < NSIZES
      ensures IsList(h'.prs, Same, h'.sizebases[t], h'.same[t])
    {
      ListFrame(h.prs, h'.prs, Same, h.sizebases[t], h.same[t]);
    }
    forall p | p in h.all
      ensures BlockType(h'.prs[p]) == BlockType(h.prs[p])
    {
      SameGeometry(h.prs[p], h'.prs[p]);
    }
    hide IsList, BlockType;
  }

  /** Geometry of every record after an operation that keeps the page words. */
  lemma GeometryFrame(prs: seq<PageRef>, prs': seq<PageRef>)
    requires SameLinks(prs, prs')
    ensures forall p :: 0 <= p < |prs| ==> PageAddr(prs'[p]) == PageAddr(prs[p])
    ensures forall p :: 0 <= p < |prs| ==> SizeOf(prs'[p]) == SizeOf(prs[p])
    ensures forall p, a :: 0 <= p < |prs| ==> (BlockOf(prs'[p], a) <==> BlockOf(prs[p], a))
  {
    hide SizeOf, PageAddr, IsBlock;
    forall p | 0 <= p < |prs|
      ensures PageAddr(prs'[p]) == PageAddr(prs[p]) && SizeOf(prs'[p]) == SizeOf(prs[p])
    {
      SameGeometry(prs[p], prs'[p]);
    }
  }

  /** Popping a free list in memory leaves a well-formed shorter one. */
  lemma PoppedRefOk(mem: Memory, r: PageRef, r': PageRef, fl: seq<int>)
    requires RefOk(mem, r, fl) && fl != [] && r'.pab == r.pab && r'.nfree == r.nfree - 1
    requires r'.offset == if |fl| == 1 then INVALID_OFFSET else fl[1] - PageAddr(r)
    ensures RefOk(mem, r', fl[1..])
  {
    hide SizeOf, IsBlock, BlockType, PageAddr;
    SameGeometry(r, r');
    var t := fl[1..];
    forall i | 0 <= i < |t|
      ensures BlockOf(r', t[i])
    {
      assert t[i] == fl[i + 1];
    }
    ChainTail(mem, fl);
    assert Distinct(t);
    assert t == [] <==> |fl| == 1;
  }

  lemma AllocFromInv(h: Heap, p: int, req: nat)
    requires Consistent(h) && p in h.all && h.free[p] != [] && req <= SizeOf(h.prs[p])
    ensures h.free[p][0] !in h.live
    ensures Consistent(AllocFrom(h, p, req))
    ensures AllocFrom(h, p, req).prs[p].nfree == h.prs[p].nfree - 1
    ensures forall q :: q in h.all && q != p ==> AllocFrom(h, p, req).prs[q] == h.prs[q]
  {
    hide SizeOf, IsBlock, BlockType, PageAddr, ListsOk, Chain, Distinct, IsList, NumBlocks;
    var h' := AllocFrom(h, p, req);
    var a, fl := h.free[p][0], h.free[p];
    FreshBlock(h, p);
    assert SameLinks(h.prs, h'.prs);
    ListsFrame(h, h');
    GeometryFrame(h.prs, h'.prs);
    PoppedRefOk(h.mem, h.prs[p], h'.prs[p], fl);
    assert PagesOk(h') by { hide RefOk; InRangeOf(h); }
    AllocFromLive(h, p, req);
  }

  lemma AllocFromLive(h: Heap, p: int, req: nat)
    requires Consistent(h) && p in h.all && h.free[p] != [] && req <= SizeOf(h.prs[p])
    ensures LiveOk(AllocFrom(h, p, req))
  {
    hide SizeOf, IsBlock, BlockType, PageAddr, ListsOk, Chain, IsList, NumBlocks, BlockOf;
    var h' := AllocFrom(h, p, req);
    var a, fl := h.free[p][0], h.free[p];
    GeometryFrame(h.prs, h'.prs);
    FreshBlock(h, p);
    assert a !in fl[1..] && forall x :: x in fl <==> x == a || x in fl[1..];
    forall q, x | Taken(h', q, x)
      ensures x in h'.live && h'.live[x].page == q
    {
      if q == p && x == a {
      } else {
        if x == a {
          OneOwner(h, p, q, a);
        }
        assert Taken(h, q, x);
      }
    }
    forall x | x in h'.live
      ensures Taken(h', h'.live[x].page, x)
    {
      if x != a {
        assert Taken(h, h.live[x].page, x);
      }
    }
  }

  /** A block address belongs to one page. */
  lemma OneOwner(h: Heap, p: int, q: int, a: int)
    requires Consistent(h) && Listed(h, p) && Listed(h, q) && BlockOf(h.prs[p], a) && BlockOf(h.prs[q], a)
    ensures p == q
  {
    hide SizeOf, IsBlock, BlockType, PageAddr, ListsOk, Chain, IsList, NumBlocks;
    if p != q {
      SizeOfPositive(h.prs[p]);
      SizeOfPositive(h.prs[q]);
      BlockOfInPage(h.prs[p], a);
      BlockOfInPage(h.prs[q], a);
      PageAddrAligned(h.prs[p]);
      PageAddrAligned(h.prs[q]);
      PagesDisjoint(PageAddr(h.prs[p]), PageAddr(h.prs[q]));
    }
  }

  lemma InRangeOf(h: Heap)
    requires ListsOk(h)
    ensures forall p :: p in h.all ==> 0 <= p < |h.prs|
    ensures |h.same| == NSIZES == |h.sizebases|
  {
  }

  /** The block taken off a free list was in no client's hands. */
  lemma FreshBlock(h: Heap, p: int)
    requires Consistent(h) && p in h.all && h.free[p] != []
    ensures h.free[p][0] !in h.live
  {
    hide SizeOf, IsBlock, NumBlocks, BlockType, PageAddr;
    var a := h.free[p][0];
    if a in h.live {
      var r := h.prs[h.live[a].page];
      SizeOfPositive(r);
      LiveBlocksAvoidFreeList(h, a, p, a);
      assert false;
    }
  }

  // ---------------------------------------------------------------- returning a block to its page

  /** The block's page record with one more free block at its head. */
  function Pushed(r: PageRef, a: int): PageRef {
    r.(nfree := r.nfree + 1, offset := a - PageAddr(r))
  }

  /** The freed block becomes the head of its page's free list; mem' is memory after the block is overwritten. */
  function PushBlock(h: Heap, a: int, mem': Memory): Heap
    requires a in h.live && 0 <= h.live[a].page < |h.prs| && h.live[a].page in h.free
  {
    var p := h.live[a].page;
    h.(mem := mem', prs := h.prs[p := Pushed(h.prs[p], a)], free := h.free[p := [a] + h.free[p]], live := h.live - {a})
  }

  /** The freed block was overwritten and its first word links to the old head. */
  ghost predicate BlockLinked(h: Heap, a: int, mem': Memory)
    requires a in h.live && 0 <= h.live[a].page < |h.prs| && h.live[a].page in h.free
  {
    SameOutside(h.mem, mem', a, a + SizeOf(h.prs[h.live[a].page])) &&
    Word(mem', a) == At(h.free[h.live[a].page], 0)
  }

  lemma PushedRefOk(mem: Memory, r: PageRef, fl: seq<int>, a: int)
    requires RefOk(mem, r, fl) && BlockOf(r, a) && a !in fl && Word(mem, a) == At(fl, 0)
    ensures RefOk(mem, Pushed(r, a), [a] + fl)
  {
    hide SizeOf, IsBlock, BlockType, PageAddr, Chain;
    SameGeometry(r, Pushed(r, a));
    ChainCons(mem, a, fl);
    forall i | 0 <= i < |fl| + 1
      ensures BlockOf(Pushed(r, a), ([a] + fl)[i])
    {
      assert i > 0 ==> ([a] + fl)[i] == fl[i - 1];
    }
  }

  /** Free lists outside a written region are intact. */
  lemma RefOkFrame(mem: Memory, mem': Memory, r: PageRef, fl: seq<int>, lo: int, hi: int)
    requires RefOk(mem, r, fl) && SameOutside(mem, mem', lo, hi)
    requires forall i :: 0 <= i < |fl| ==> !(lo <= fl[i] < hi)
    ensures RefOk(mem', r, fl)
  {
    hide SizeOf, IsBlock, BlockType, PageAddr, BlockOf, Word;
    ChainFrame(mem, mem', fl);
  }

  lemma PushBlockInv(h: Heap, a: int, mem': Memory)
    requires Consistent(h) && a in h.live && BlockLinked(h, a, mem')
    ensures Consistent(PushBlock(h, a, mem'))
  {
    hide SizeOf, IsBlock, BlockType, PageAddr, ListsOk, IsList, NumBlocks, Word, RefOk, BlockOf;
    var p := h.live[a].page;
    assert Taken(h, p, a);
    var h' := PushBlock(h, a, mem');
    assert SameLinks(h.prs, h'.prs);
    ListsFrame(h, h');
    GeometryFrame(h.prs, h'.prs);
    forall q | q in h.all
      ensures Listed(h', q) && RefOk(mem', h'.prs[q], h'.free[q])
    {
      forall i | 0 <= i < |h.free[q]|
        ensures !(a <= h.free[q][i] < a + SizeOf(h.prs[p]))
      {
        LiveBlocksAvoidFreeList(h, a, q, h.free[q][i]);
      }
      RefOkFrame(h.mem, mem', h.prs[q], h.free[q], a, a + SizeOf(h.prs[p]));
      if q == p {
        PushedRefOk(mem', h.prs[p], h.free[p], a);
      }
    }
    assert PagesOk(h');
    PushBlockLive(h, a, mem');
  }

  lemma PushBlockLive(h: Heap, a: int, mem': Memory)
    requires Consistent(h) && a in h.live && Taken(h, h.live[a].page, a)
    ensures LiveOk(PushBlock(h, a, mem'))
  {
    hide SizeOf, IsBlock, BlockType, PageAddr, ListsOk, IsList, NumBlocks, RefOk, BlockOf;
    var p := h.live[a].page;
    var h' := PushBlock(h, a, mem');
    GeometryFrame(h.prs, h'.prs);
    assert forall x :: x in h'.free[p] <==> x == a || x in h.free[p];
    forall q, x | Taken(h', q, x)
      ensures x in h'.live && h'.live[x].page == q
    {
      assert Taken(h, q, x);
    }
    forall x | x in h'.live
      ensures Taken(h', h'.live[x].page, x)
    {
      assert Taken(h, h.live[x].page, x);
    }
  }

  // ---------------------------------------------------------------- taking a page off the lists

  /** remove_lists on one list: the predecessor's pointer skips element i. */
  function Unlink(prs: seq<PageRef>, kind: Kind, s: seq<int>, i: nat): seq<PageRef>
    requires i < |s|
  {
    if i == 0 || !(0 <= s[i - 1] < |prs|) then prs
    else prs[s[i - 1] := SetNext(prs[s[i - 1]], kind, NextInSeq(s, i + 1))]
  }

  function Without(s: seq<int>, i: nat): seq<int>
    requires i < |s|
  {
    s[..i] + s[i + 1..]
  }

  lemma UnlinkOk(prs: seq<PageRef>, kind: Kind, head: int, s: seq<int>, i: nat)
    requires IsList(prs, kind, head, s) && i < |s|
    ensures IsList(Unlink(prs, kind, s, i), kind, if i == 0 then NextInSeq(s, 1) else head, Without(s, i))
  {
    var prs', s' := Unlink(prs, kind, s, i), Without(s, i);
    WithoutDistinct(s, i);
    assert forall k :: 0 <= k < |s'| ==> s'[k] == s[if k < i then k else k + 1];
    forall k | 0 <= k < |s'|
      ensures Next(prs'[s'[k]], kind) == NextInSeq(s', k + 1)
    {
      UnlinkedNext(prs, kind, head, s, i, k);
    }
  }

  /** The elements of a list without its element i, and what follows each of them. */
  lemma WithoutNext(s: seq<int>, i: nat, k: nat)
    requires i < |s| && k < |s| - 1
    ensures Without(s, i)[k] == s[if k < i then k else k + 1]
    ensures NextInSeq(Without(s, i), k + 1) == NextInSeq(s, if k + 1 < i then k + 1 else k + 2)
  {
  }

  lemma NextAfterUnlink(prs: seq<PageRef>, kind: Kind, s: seq<int>, i: nat, q: int)
    requires i < |s| && 0 <= q < |prs| && (i > 0 ==> 0 <= s[i - 1] < |prs|)
    ensures |Unlink(prs, kind, s, i)| == |prs|
    ensures Next(Unlink(prs, kind, s, i)[q], kind) ==
      if i > 0 && q == s[i - 1] then NextInSeq(s, i + 1) else Next(prs[q], kind)
  {
    hide NextInSeq;
  }

  lemma UnlinkedNext(prs: seq<PageRef>, kind: Kind, head: int, s: seq<int>, i: nat, k: nat)
    requires IsList(prs, kind, head, s) && i < |s| && k < |s| - 1
    ensures 0 <= Without(s, i)[k] < |prs| == |Unlink(prs, kind, s, i)|
    ensures Next(Unlink(prs, kind, s, i)[Without(s, i)[k]], kind) == NextInSeq(Without(s, i), k + 1)
  {
    hide IsList, Without, NextInSeq, Unlink;
    var j := if k < i then k else k + 1;
    WithoutNext(s, i, k);
    ListLinks(prs, kind, head, s);
    ListInRange(prs, kind, head, s);
    NextAfterUnlink(prs, kind, s, i, s[j]);
    assert Next(prs[s[j]], kind) == NextInSeq(s, j + 1);
    assert i > 0 && j != i - 1 ==> s[j] != s[i - 1];
  }

  lemma WithoutDistinct(s: seq<int>, i: nat)
    requires Distinct(s) && i < |s|
    ensures Distinct(Without(s, i))
  {
    var t := Without(s, i);
    forall k, l | 0 <= k < l < |t|
      ensures t[k] != t[l]
    {
      assert t[k] == s[if k < i then k else k + 1] && t[l] == s[if l < i then l else l + 1];
    }
  }

  /** Unlinking touches one link of one list and nothing else. */
  lemma UnlinkFrame(prs: seq<PageRef>, kind: Kind, s: seq<int>, i: nat)
    requires i < |s| && forall k :: 0 <= k < |s| ==> 0 <= s[k] < |prs|
    ensures |Unlink(prs, kind, s, i)| == |prs|
    ensures forall p :: 0 <= p < |prs| && p !in s ==> Unlink(prs, kind, s, i)[p] == prs[p]
    ensures forall p, k :: 0 <= p < |prs| && k != kind ==> Next(Unlink(prs, kind, s, i)[p], k) == Next(prs[p], k)
    ensures SameContents(prs, Unlink(prs, kind, s, i))
  {
  }

  /** Records agree in everything but their list links. */
  ghost predicate SameContents(prs: seq<PageRef>, prs': seq<PageRef>) {
    |prs| == |prs'| && forall p :: 0 <= p < |prs| ==>
      prs'[p].pab == prs[p].pab && prs'[p].offset == prs[p].offset && prs'[p].nfree == prs[p].nfree
  }

  lemma WithoutMembers(s: seq<int>, i: nat)
    requires Distinct(s) && i < |s|
    ensures forall p :: p in Without(s, i) <==> p in s && p != s[i]
  {
    forall p | p in s && p != s[i]
      ensures p in Without(s, i)
    {
      var k :| 0 <= k < |s| && s[k] == p;
      assert Without(s, i)[if k < i then k else k - 1] == p;
    }
  }

  /** remove_lists: page record p, at place i of its size list and place j of the list of all, goes. */
  function RemovePage(h: Heap, p: int, t: nat, i: nat, j: nat): Heap
    requires t < |h.same| == |h.sizebases| && i < |h.same[t]| && j < |h.all|
  {
    var prs1 := Unlink(h.prs, Same, h.same[t], i);
    h.(prs := Unlink(prs1, All, h.all, j),
       sizebases := if i == 0 then h.sizebases[t := NextInSeq(h.same[t], 1)] else h.sizebases,
       allbase := if j == 0 then NextInSeq(h.all, 1) else h.allbase,
       same := h.same[t := Without(h.same[t], i)],
       all := Without(h.all, j),
       free := h.free - {p})
  }

  /** p sits at place i of the list of its type t and at place j of the list of all pages. */
  ghost predicate Placed(h: Heap, p: int, t: nat, i: nat, j: nat) {
    t < NSIZES && ListsOk(h) && i < |h.same[t]| && h.same[t][i] == p && j < |h.all| && h.all[j] == p
  }

  lemma ListInRange(prs: seq<PageRef>, kind: Kind, head: int, s: seq<int>)
    requires IsList(prs, kind, head, s)
    ensures forall k :: 0 <= k < |s| ==> 0 <= s[k] < |prs|
    ensures forall p :: p in s ==> 0 <= p < |prs|
    ensures Distinct(s)
  {
  }

  lemma ListLinks(prs: seq<PageRef>, kind: Kind, head: int, s: seq<int>)
    requires IsList(prs, kind, head, s)
    ensures head == NextInSeq(s, 0)
    ensures forall k :: 0 <= k < |s| ==> 0 <= s[k] < |prs| && Next(prs[s[k]], kind) == NextInSeq(s, k + 1)
  {
  }

  lemma RemovedFromAll(h: Heap, p: int, t: nat, i: nat, j: nat)
    requires Placed(h, p, t, i, j)
    ensures var h' := RemovePage(h, p, t, i, j); IsList(h'.prs, All, h'.allbase, h'.all)
  {
    hide Unlink, Without, IsList;
    var prs1 := Unlink(h.prs, Same, h.same[t], i);
    ListInRange(h.prs, Same, h.sizebases[t], h.same[t]);
    ListInRange(h.prs, All, h.allbase, h.all);
    UnlinkFrame(h.prs, Same, h.same[t], i);
    ListFrame(h.prs, prs1, All, h.allbase, h.all);
    UnlinkOk(prs1, All, h.allbase, h.all, j);
  }

  lemma RemovedFromSame(h: Heap, p: int, t: nat, i: nat, j: nat, u: nat)
    requires Placed(h, p, t, i, j) && u < NSIZES
    ensures var h' := RemovePage(h, p, t, i, j); IsList(h'.prs, Same, h'.sizebases[u], h'.same[u])
  {
    hide Unlink, Without, IsList;
    var h' := RemovePage(h, p, t, i, j);
    var prs1 := Unlink(h.prs, Same, h.same[t], i);
    ListInRange(h.prs, Same, h.sizebases[t], h.same[t]);
    ListInRange(h.prs, Same, h.sizebases[u], h.same[u]);
    ListInRange(h.prs, All, h.allbase, h.all);
    UnlinkFrame(h.prs, Same, h.same[t], i);
    UnlinkFrame(prs1, All, h.all, j);
    if u == t {
      UnlinkOk(h.prs, Same, h.sizebases[t], h.same[t], i);
    } else {
      assert forall q :: q in h.same[u] ==> BlockType(h.prs[q]) == u;
      ListFrame(h.prs, prs1, Same, h.sizebases[u], h.same[u]);
    }
    ListInRange(prs1, Same, h'.sizebases[u], h'.same[u]);
    ListFrame(prs1, h'.prs, Same, h'.sizebases[u], h'.same[u]);
  }

  lemma RemovePageLists(h: Heap, p: int, t: nat, i: nat, j: nat)
    requires Placed(h, p, t, i, j)
    ensures ListsOk(RemovePage(h, p, t, i, j))
    ensures SameContents(h.prs, RemovePage(h, p, t, i, j).prs)
    ensures forall q :: q in RemovePage(h, p, t, i, j).all <==> q in h.all && q != p
  {
    hide BlockType, Unlink, Without, IsList;
    var h' := RemovePage(h, p, t, i, j);
    var prs1 := Unlink(h.prs, Same, h.same[t], i);
    ListInRange(h.prs, Same, h.sizebases[t], h.same[t]);
    ListInRange(h.prs, All, h.allbase, h.all);
    UnlinkFrame(h.prs, Same, h.same[t], i);
    UnlinkFrame(prs1, All, h.all, j);
    WithoutMembers(h.all, j);
    WithoutMembers(h.same[t], i);
    SameTypes(h.prs, h'.prs);
    RemovedFromAll(h, p, t, i, j);
    forall u | 0 <= u < NSIZES
      ensures IsList(h'.prs, Same, h'.sizebases[u], h'.same[u])
    {
      RemovedFromSame(h, p, t, i, j, u);
    }
    assert p in h.same[t] && BlockType(h.prs[p]) == t;
    forall u, q | 0 <= u < NSIZES && q in h'.same[u]
      ensures q in h'.all && BlockType(h'.prs[q]) == u
    {
      assert q in h.same[u] && q != p;
    }
    forall q | q in h'.all
      ensures q in h'.same[BlockType(h'.prs[q])]
    {
      assert q in h.same[BlockType(h.prs[q])];
    }
  }

  /** Taking out the record of a page none of whose blocks is live. */
  lemma RemovePageInv(h: Heap, p: int, t: nat, i: nat, j: nat)
    requires Consistent(h) && Placed(h, p, t, i, j)
    requires forall a :: a in h.live ==> h.live[a].page != p
    ensures Consistent(RemovePage(h, p, t, i, j))
  {
    hide SizeOf, IsBlock, BlockType, PageAddr, ListsOk, NumBlocks, Word, RefOk, BlockOf, Unlink, Without;
    InRangeOf(h);
    var h' := RemovePage(h, p, t, i, j);
    RemovePageLists(h, p, t, i, j);
    ContentsFrame(h.prs, h'.prs);
    InRangeOf(h');
    forall q | q in h'.all
      ensures RefOk(h'.mem, h'.prs[q], h'.free[q])
    {
      SameRefOk(h.mem, h.prs[q], h'.prs[q], h.free[q]);
    }
    forall q, x | Taken(h', q, x)
      ensures x in h'.live && h'.live[x].page == q
    {
      assert Taken(h, q, x);
    }
    forall x | x in h'.live
      ensures Taken(h', h'.live[x].page, x)
    {
      assert Taken(h, h.live[x].page, x);
    }
  }

  lemma SameRefOk(mem: Memory, r: PageRef, r': PageRef, fl: seq<int>)
    requires RefOk(mem, r, fl) && r'.pab == r.pab && r'.offset == r.offset && r'.nfree == r.nfree
    ensures RefOk(mem, r', fl)
  {
    SameGeometry(r, r');
    hide SizeOf, IsBlock, BlockType, PageAddr;
  }

  lemma ContentsFrame(prs: seq<PageRef>, prs': seq<PageRef>)
    requires SameContents(prs, prs')
    ensures forall p :: 0 <= p < |prs| ==> PageAddr(prs'[p]) == PageAddr(prs[p])
    ensures forall p :: 0 <= p < |prs| ==> SizeOf(prs'[p]) == SizeOf(prs[p])
    ensures forall p, a :: 0 <= p < |prs| ==> (BlockOf(prs'[p], a) <==> BlockOf(prs[p], a))
  {
    hide SizeOf, PageAddr, IsBlock;
    forall p | 0 <= p < |prs|
      ensures PageAddr(prs'[p]) == PageAddr(prs[p]) && SizeOf(prs'[p]) == SizeOf(prs[p])
    {
      SameGeometry(prs[p], prs'[p]);
    }
  }

  lemma SameTypes(prs: seq<PageRef>, prs': seq<PageRef>)
    requires SameContents(prs, prs')
    ensures forall p :: 0 <= p < |prs| ==> BlockType(prs'[p]) == BlockType(prs[p])
  {
  }

  // ---------------------------------------------------------------- putting a fresh page on the lists

  /** The record of a fresh page, all of whose blocks are free, highest first. */
  function FreshRef(h: Heap, pg: int, t: nat): PageRef
    requires t < NSIZES && |h.sizebases| == NSIZES
  {
    PageRef(h.sizebases[t], h.allbase, MkPab(pg, t),
            (NumBlocks(SIZES[t]) - 1) * SIZES[t], NumBlocks(SIZES[t]))
  }

  /** Record p, taken from the pool, describes the fresh page pg and heads both its lists. */
  function AddPage(h: Heap, p: int, pg: int, t: nat, mem': Memory): Heap
    requires t < NSIZES && |h.sizebases| == NSIZES == |h.same| && 0 <= p < |h.prs|
  {
    h.(mem := mem', prs := h.prs[p := FreshRef(h, pg, t)],
       sizebases := h.sizebases[t := p], allbase := p,
       all := [p] + h.all, same := h.same[t := [p] + h.same[t]],
       free := h.free[p := Blocks(pg, SIZES[t], NumBlocks(SIZES[t]))])
  }

  /** What alloc_kpages and the initialisation loop provide: a new aligned page carrying a full free list. */
  ghost predicate FreshPage(h: Heap, pg: int, t: nat, mem': Memory)
    requires t < NSIZES
  {
    pg > 0 && pg % PAGE_SIZE == 0 && (forall q :: Listed(h, q) ==> PageAddr(h.prs[q]) != pg) &&
    SameOutside(h.mem, mem', pg, pg + PAGE_SIZE) && Chain(mem', Blocks(pg, SIZES[t], NumBlocks(SIZES[t])))
  }

  lemma FreshGeometry(h: Heap, pg: int, t: nat)
    requires t < NSIZES && |h.sizebases| == NSIZES && pg % PAGE_SIZE == 0
    ensures PageAddr(FreshRef(h, pg, t)) == pg && BlockType(FreshRef(h, pg, t)) == t
    ensures SizeOf(FreshRef(h, pg, t)) == SIZES[t]
  {
  }

  lemma FreshRefOk(h: Heap, pg: int, t: nat, mem': Memory)
    requires t < NSIZES && |h.sizebases| == NSIZES && pg > 0 && pg % PAGE_SIZE == 0
    requires Chain(mem', Blocks(pg, SIZES[t], NumBlocks(SIZES[t])))
    ensures RefOk(mem', FreshRef(h, pg, t), Blocks(pg, SIZES[t], NumBlocks(SIZES[t])))
    ensures forall a :: BlockOf(FreshRef(h, pg, t), a) ==> a in Blocks(pg, SIZES[t], NumBlocks(SIZES[t]))
  {
    FreshGeometry(h, pg, t);
    SizesDividePage(t);
    hide PageAddr, BlockType, SizeOf, IsBlock, Chain;
    BlocksComplete(pg, SIZES[t]);
    BlocksAt(pg, SIZES[t], NumBlocks(SIZES[t]), 0);
  }

  lemma AddPageLists(h: Heap, p: int, pg: int, t: nat, mem': Memory)
    requires ListsOk(h) && t < NSIZES && 0 <= p < |h.prs| && p !in h.all && pg % PAGE_SIZE == 0
    ensures ListsOk(AddPage(h, p, pg, t, mem'))
  {
    FreshGeometry(h, pg, t);
    hide BlockType, MkPab, NumBlocks, IsList;
    var h' := AddPage(h, p, pg, t, mem');
    ListCons(h.prs, h'.prs, All, h.allbase, h.all, p);
    forall u | 0 <= u < NSIZES
      ensures IsList(h'.prs, Same, h'.sizebases[u], h'.same[u])
    {
      AddPageSame(h, p, pg, t, mem', u);
    }
    AddPageMembers(h, p, pg, t, mem');
  }

  /** The new record is on the list of its own size, and the others are where they were. */
  lemma AddPageMembers(h: Heap, p: int, pg: int, t: nat, mem': Memory)
    requires ListsOk(h) && t < NSIZES && 0 <= p < |h.prs| && p !in h.all && pg % PAGE_SIZE == 0
    ensures |AddPage(h, p, pg, t, mem').same| == NSIZES
    ensures var h' := AddPage(h, p, pg, t, mem');
      forall u, q :: 0 <= u < NSIZES && q in h'.same[u] ==>
        q in h'.all && 0 <= q < |h'.prs| && BlockType(h'.prs[q]) == u
    ensures var h' := AddPage(h, p, pg, t, mem');
      forall q :: q in h'.all ==>
        0 <= q < |h'.prs| && BlockType(h'.prs[q]) < NSIZES && q in h'.same[BlockType(h'.prs[q])]
  {
    FreshGeometry(h, pg, t);
    hide BlockType, MkPab, NumBlocks, IsList, FreshRef;
    var h' := AddPage(h, p, pg, t, mem');
    assert forall q :: q in h'.all <==> q == p || q in h.all;
    assert forall q :: q in h'.same[t] <==> q == p || q in h.same[t];
  }

  lemma AddPageSame(h: Heap, p: int, pg: int, t: nat, mem': Memory, u: nat)
    requires ListsOk(h) && t < NSIZES && 0 <= p < |h.prs| && p !in h.all && u < NSIZES
    ensures var h' := AddPage(h, p, pg, t, mem'); IsList(h'.prs, Same, h'.sizebases[u], h'.same[u])
  {
    hide BlockType, MkPab, NumBlocks, IsList;
    var h' := AddPage(h, p, pg, t, mem');
    assert p !in h.same[u];
    if u == t {
      ListCons(h.prs, h'.prs, Same, h.sizebases[t], h.same[t], p);
    } else {
      ListInRange(h.prs, Same, h.sizebases[u], h.same[u]);
      ListFrame(h.prs, h'.prs, Same, h.sizebases[u], h.same[u]);
    }
  }

  lemma ListCons(prs: seq<PageRef>, prs': seq<PageRef>, kind: Kind, head: int, s: seq<int>, p: int)
    requires IsList(prs, kind, head, s) && 0 <= p < |prs| == |prs'| && p !in s
    requires Next(prs'[p], kind) == head && forall q :: 0 <= q < |prs| && q != p ==> prs'[q] == prs[q]
    ensures IsList(prs', kind, p, [p] + s)
  {
    var t := [p] + s;
    forall i | 0 <= i < |t|
      ensures Next(prs'[t[i]], kind) == NextInSeq(t, i + 1)
    {
      assert NextInSeq(t, i + 1) == NextInSeq(s, i);
      if i > 0 {
        assert t[i] == s[i - 1];
      }
    }
  }

  lemma AddPageInv(h: Heap, p: int, pg: int, t: nat, mem': Memory)
    requires Consistent(h) && t < NSIZES && 0 <= p < |h.prs| && p !in h.all && FreshPage(h, pg, t, mem')
    ensures Consistent(AddPage(h, p, pg, t, mem'))
    ensures AddPage(h, p, pg, t, mem').free[p] != []
    ensures SizeOf(AddPage(h, p, pg, t, mem').prs[p]) == SIZES[t]
  {
    AddPageLists(h, p, pg, t, mem');
    FreshGeometry(h, pg, t);
    SizesDividePage(t);
    BlocksLength(pg, SIZES[t], NumBlocks(SIZES[t]));
    AddPagePages(h, p, pg, t, mem');
    AddPageLive(h, p, pg, t, mem');
  }

  lemma AddPagePages(h: Heap, p: int, pg: int, t: nat, mem': Memory)
    requires Consistent(h) && t < NSIZES && 0 <= p < |h.prs| && p !in h.all && FreshPage(h, pg, t, mem')
    ensures PagesOk(AddPage(h, p, pg, t, mem'))
  {
    InRangeOf(h);
    FreshGeometry(h, pg, t);
    FreshRefOk(h, pg, t, mem');
    hide SizeOf, IsBlock, BlockType, PageAddr, ListsOk, NumBlocks, RefOk, BlockOf, FreshRef, Chain, LiveOk;
    var h' := AddPage(h, p, pg, t, mem');
    assert forall q :: q in h'.all <==> q == p || q in h.all;
    forall q | q in h'.all
      ensures Listed(h', q) && RefOk(mem', h'.prs[q], h'.free[q])
    {
      if q != p {
        OtherPageIntact(h, q, pg, mem');
      }
    }
    assert forall q :: Listed(h', q) && q != p ==> Listed(h, q);
  }

  lemma AddPageLive(h: Heap, p: int, pg: int, t: nat, mem': Memory)
    requires Consistent(h) && t < NSIZES && 0 <= p < |h.prs| && p !in h.all && FreshPage(h, pg, t, mem')
    ensures LiveOk(AddPage(h, p, pg, t, mem'))
  {
    InRangeOf(h);
    var h' := AddPage(h, p, pg, t, mem');
    forall q, x
      ensures Taken(h', q, x) <==> Taken(h, q, x)
    {
      AddPageTaken(h, p, pg, t, mem', q, x);
    }
    forall x | x in h.live
      ensures SizeOf(h'.prs[h.live[x].page]) == SizeOf(h.prs[h.live[x].page])
    {
      assert Taken(h, h.live[x].page, x);
    }
    hide Taken, SizeOf;
  }

  lemma AddPageTaken(h: Heap, p: int, pg: int, t: nat, mem': Memory, q: int, x: int)
    requires Consistent(h) && t < NSIZES && 0 <= p < |h.prs| && p !in h.all && FreshPage(h, pg, t, mem')
    requires |h.sizebases| == NSIZES == |h.same|
    ensures Taken(AddPage(h, p, pg, t, mem'), q, x) <==> Taken(h, q, x)
  {
    FreshRefOk(h, pg, t, mem');
    hide SizeOf, IsBlock, BlockType, PageAddr, ListsOk, NumBlocks, RefOk, BlockOf, FreshRef, Chain, FreshPage, LiveOk,
         PagesOk;
    var h' := AddPage(h, p, pg, t, mem');
    assert q in h'.all <==> q == p || q in h.all;
  }

  /** Writing a page of its own does not disturb another page's free list. */
  lemma OtherPageIntact(h: Heap, q: int, pg: int, mem': Memory)
    requires Consistent(h) && Listed(h, q) && pg % PAGE_SIZE == 0 && PageAddr(h.prs[q]) != pg
    requires SameOutside(h.mem, mem', pg, pg + PAGE_SIZE)
    ensures RefOk(mem', h.prs[q], h.free[q])
  {
    hide SizeOf, IsBlock, BlockType, PageAddr, ListsOk, NumBlocks, Chain;
    var r, fl := h.prs[q], h.free[q];
    PageAddrAligned(r);
    PagesDisjoint(PageAddr(r), pg);
    SizeOfPositive(r);
    forall i | 0 <= i < |fl|
      ensures !(pg <= fl[i] < pg + PAGE_SIZE)
    {
      BlockOfInPage(r, fl[i]);
    }
    hide RefOk;
    RefOkFrame(h.mem, mem', r, fl, pg, pg + PAGE_SIZE);
  }
}
