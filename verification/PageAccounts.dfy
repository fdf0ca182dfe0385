/**
 * The pages the kernel heap has obtained from the page allocator and not yet returned, and what each is
 * held for.
 */
module PageAccounts {
  import opened HeapPages

  /**
   * Pages cut into blocks, pages of page records, whole-page allocations with their lengths, and the runs
   * of pages that alloc_kpages has handed out.
   */
  datatype Books = Books(heapPages: set<int>, poolPages: set<int>, big: map<int, nat>, chunks: map<int, nat>)

  /** Two runs of pages do not overlap. */
  ghost predicate Apart(c: int, n: nat, d: int, k: nat) {
    c + n * PAGE_SIZE <= d || d + k * PAGE_SIZE <= c
  }

  ghost predicate RunsOk(chunks: map<int, nat>) {
    (forall c :: c in chunks ==> c > 0 && c % PAGE_SIZE == 0) &&
    forall c, d :: c in chunks && d in chunks && c != d ==> Apart(c, chunks[c], d, chunks[d])
  }

  /** Every run obtained is held for exactly one purpose, and nothing else is held. */
  ghost predicate Balanced(b: Books) {
    RunsOk(b.chunks) &&
    b.chunks.Keys == b.heapPages + b.poolPages + b.big.Keys &&
    b.heapPages !! b.poolPages !! b.big.Keys &&
    (forall c :: c in b.heapPages + b.poolPages ==> c in b.chunks && b.chunks[c] == 1) &&
    forall c :: c in b.big ==> c in b.chunks && b.chunks[c] == b.big[c]
  }

  /** What the page allocator may answer to a request for n pages: 0, or a run nobody holds. */
  ghost predicate Answer(chunks: map<int, nat>, va: int, n: nat) {
    va == 0 ||
    (va > 0 && va % PAGE_SIZE == 0 && va !in chunks && forall c :: c in chunks ==> Apart(c, chunks[c], va, n))
  }

  lemma Obtained(chunks: map<int, nat>, va: int, n: nat)
    requires RunsOk(chunks) && Answer(chunks, va, n) && va != 0
    ensures RunsOk(chunks[va := n])
  {
  }

  lemma AnswerAfter(chunks: map<int, nat>, va: int, n: nat, vb: int, k: nat)
    requires Answer(chunks, va, n) && Answer(chunks, vb, k) && va != 0 && (vb != 0 ==> va != vb && Apart(va, n, vb, k))
    ensures Answer(chunks[va := n], vb, k)
  {
  }

  lemma GainHeapPage(b: Books, pg: int)
    requires Balanced(b) && pg != 0 && Answer(b.chunks, pg, 1)
    ensures Balanced(b.(heapPages := b.heapPages + {pg}, chunks := b.chunks[pg := 1]))
  {
    Obtained(b.chunks, pg, 1);
  }

  lemma GainPoolPage(b: Books, va: int)
    requires Balanced(b) && va != 0 && Answer(b.chunks, va, 1)
    ensures Balanced(b.(poolPages := b.poolPages + {va}, chunks := b.chunks[va := 1]))
  {
    Obtained(b.chunks, va, 1);
  }

  lemma GainBig(b: Books, va: int, n: nat)
    requires Balanced(b) && va != 0 && Answer(b.chunks, va, n)
    ensures Balanced(b.(big := b.big[va := n], chunks := b.chunks[va := n]))
  {
    Obtained(b.chunks, va, n);
  }

  lemma LoseHeapPage(b: Books, pg: int)
    requires Balanced(b) && pg in b.heapPages
    ensures Balanced(b.(heapPages := b.heapPages - {pg}, chunks := b.chunks - {pg}))
  {
  }

  lemma LoseBig(b: Books, va: int)
    requires Balanced(b) && va in b.big
    ensures Balanced(b.(big := b.big - {va}, chunks := b.chunks - {va}))
  {
  }

  /** A whole-page allocation's address lies on no page of blocks. */
  lemma BigNotOnHeapPage(b: Books, va: int, pg: int)
    requires Balanced(b) && va in b.big && pg in b.heapPages
    ensures !(pg <= va < pg + PAGE_SIZE)
  {
    assert pg in b.chunks && va in b.chunks && pg != va;
  }
}
