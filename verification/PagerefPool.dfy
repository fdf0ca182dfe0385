/**
 * The pool of page records: one bitmap and one counter per page of records, searched linearly.
 * Record number p is slot p % PER of root p / PER.
 */
module PagerefPool {
  import opened HeapPages

  const PER: nat := 256
  const INUSE_WORDS: nat := 8

  function Root(p: int): int { p / 256 }
  function Slot(p: int): nat { p % 256 }
  function Record(r: int, k: int): int { r * 256 + k }

  lemma RecordParts(r: int, k: int)
    requires 0 <= k < PER
    ensures Root(Record(r, k)) == r && Slot(Record(r, k)) == k
  {
  }

  lemma RecordWhole(p: int)
    ensures Record(Root(p), Slot(p)) == p && Slot(p) < PER
  {
  }

  lemma NotNil(r: int, k: int)
    requires 0 <= r && 0 <= k
    ensures Record(r, k) != NIL
  {
  }

  function CountTrue(s: seq<bool>): nat {
    if s == [] then 0 else CountTrue(s[..|s| - 1]) + (if s[|s| - 1] then 1 else 0)
  }

  lemma {:induction false} CountTrueUpdate(s: seq<bool>, i: nat, v: bool)
    requires i < |s| && s[i] != v
    ensures CountTrue(s[i := v]) == CountTrue(s) + (if v then 1 else -1)
  {
    var t := s[i := v];
    if i == |s| - 1 {
      assert t[..|s| - 1] == s[..|s| - 1];
    } else {
      CountTrueUpdate(s[..|s| - 1], i, v);
      assert t[..|s| - 1] == s[..|s| - 1][i := v];
    }
  }

  lemma {:induction false} CountTrueBounds(s: seq<bool>)
    ensures CountTrue(s) <= |s|
    ensures CountTrue(s) == |s| <==> forall i :: 0 <= i < |s| ==> s[i]
    ensures CountTrue(s) == 0 <==> forall i :: 0 <= i < |s| ==> !s[i]
  {
    if s != [] {
      var t := s[..|s| - 1];
      CountTrueBounds(t);
      assert forall i :: 0 <= i < |t| ==> t[i] == s[i];
    }
  }

  /** The pages holding records. */
  function PagesOf(page: seq<int>): set<int> {
    set r | 0 <= r < |page| && page[r] != 0 :: page[r]
  }

  lemma PagesGrow(page: seq<int>, r: nat, va: int)
    requires r < |page| && page[r] == 0 && va != 0
    ensures PagesOf(page[r := va]) == PagesOf(page) + {va}
  {
    var page' := page[r := va];
    assert page'[r] == va;
    forall x | x in PagesOf(page)
      ensures x in PagesOf(page')
    {
      var s :| 0 <= s < |page| && page[s] != 0 && page[s] == x;
      assert page'[s] == x;
    }
  }

  /** Root r is the first with room for a record. */
  ghost predicate RoomAt(numinuse: seq<nat>, r: int) {
    0 <= r < |numinuse| && numinuse[r] < PER && forall s :: 0 <= s < r ==> numinuse[s] == PER
  }

  ghost predicate AllFull(numinuse: seq<nat>) {
    forall r :: 0 <= r < |numinuse| ==> numinuse[r] == PER
  }

  class Pool {
    /** kheaproots: the page each root holds (0 for NULL), its bitmap and its count of set bits. */
    var page: seq<int>
    var inuse: seq<seq<bool>>
    var numinuse: seq<nat>
    /** The records in use by the allocator. */
    ghost var out: set<int>
    /** The records marked by threads that have dropped the lock to ask for their root's page. */
    ghost var pending: set<int>

    ghost predicate Valid()
      reads this
    {
      |page| == |inuse| == |numinuse| &&
      (forall r, s :: 0 <= r < s < |page| && page[r] != 0 ==> page[r] != page[s]) &&
      (forall r :: 0 <= r < |inuse| ==> |inuse[r]| == PER && numinuse[r] == CountTrue(inuse[r])) &&
      (forall p :: p in out ==> Marked(p) && page[Root(p)] != 0) &&
      (forall p :: p in pending ==> Marked(p) && p !in out) &&
      forall p, r :: (p in out || p in pending) && 0 <= r < Root(p) && page[r] == 0 ==> numinuse[r] == PER
    }

    /** p names a record of some root whose bit is set. */
    ghost predicate Marked(p: int)
      reads this
    {
      Slot(p) < PER && 0 <= Root(p) < |page| == |inuse| && |inuse[Root(p)]| == PER && inuse[Root(p)][Slot(p)]
    }

    /** Every marked bit belongs to a record in use or about to be; lost only when a page of records cannot be had. */
    ghost predicate NoLeak()
      reads this
    {
      forall r, i :: 0 <= r < |inuse| && 0 <= i < |inuse[r]| && inuse[r][i] ==>
        Record(r, i) in out || Record(r, i) in pending
    }

    constructor (nroots: nat)
      ensures Valid() && NoLeak() && out == pending == {} && PagesOf(page) == {} && |page| == nroots
      ensures forall r :: 0 <= r < nroots ==> page[r] == 0 && numinuse[r] == 0
    {
      page := seq(nroots, _ => 0);
      inuse := seq(nroots, _ => seq(PER, _ => false));
      numinuse := seq(nroots, _ => 0);
      out, pending := {}, {};
      new;
      CountTrueBounds(seq(PER, _ => false));
    }

    /** Is word i of root r's bitmap all ones? */
    predicate WordFull(r: nat, i: nat)
      reads this
      requires r < |inuse| && |inuse[r]| == PER && i < INUSE_WORDS
    {
      forall k :: i * 32 <= k < i * 32 + 32 ==> inuse[r][k]
    }

    /** The search inside one root that has a clear bit: the first one. */
    method FirstClear(r: nat) returns (k: nat)
      requires Valid() && r < |inuse| && numinuse[r] < PER
      ensures k < PER && !inuse[r][k] && forall j :: 0 <= j < k ==> inuse[r][j]
    {
      var i := 0;
      while i < INUSE_WORDS
        invariant i <= INUSE_WORDS
        invariant forall j :: 0 <= j < i * 32 ==> inuse[r][j]
      {
        if !WordFull(r, i) {
          var j := 0;
          while inuse[r][i * 32 + j]
            invariant j < 32 && forall l :: 0 <= l < i * 32 + j ==> inuse[r][l]
            invariant exists l :: i * 32 + j <= l < i * 32 + 32 && !inuse[r][l]
            decreases 32 - j
          {
            j := j + 1;
          }
          return i * 32 + j;
        }
        i := i + 1;
      }
      CountTrueBounds(inuse[r]);
      assert false;
    }

    /**
     * The part of allocpageref before the root's page is needed: the first clear bit of the first root with room is
     * marked.
     */
    method Reserve() returns (found: bool, r: nat, k: nat)
      requires Valid()
      modifies this`inuse, this`numinuse, this`pending
      ensures Valid() && (found <==> !AllFull(old(numinuse)))
      ensures !found ==> inuse == old(inuse) && numinuse == old(numinuse) && pending == old(pending)
      ensures found ==> RoomAt(old(numinuse), r) && numinuse == old(numinuse)[r := old(numinuse)[r] + 1]
      ensures found ==>
        r < |old(inuse)| && k < PER == |old(inuse)[r]| && !old(inuse)[r][k] &&
        forall j :: 0 <= j < k ==> old(inuse)[r][j]
      ensures found ==> inuse == old(inuse)[r := old(inuse)[r][k := true]]
      ensures found ==>
        pending == old(pending) + {Record(r, k)} && Record(r, k) !in old(pending) && Record(r, k) !in out
      ensures old(NoLeak()) ==> NoLeak()
    {
      hide Root, Slot, Record, CountTrue;
      found, r, k := false, 0, 0;
      while r < |page|
        invariant r <= |page| && page == old(page) && inuse == old(inuse) && numinuse == old(numinuse)
        invariant out == old(out) && pending == old(pending)
        invariant forall s :: 0 <= s < r ==> numinuse[s] == PER
      {
        CountTrueBounds(inuse[r]);
        if numinuse[r] < PER {
          break;
        }
        r := r + 1;
      }
      if r < |page| {
        k := FirstClear(r);
        found := true;
        MarkBit(r, k);
      }
    }

    /** The bit and the counter of root r. */
    method MarkBit(r: nat, k: nat)
      requires Valid() && RoomAt(numinuse, r) && k < PER && !inuse[r][k]
      modifies this`inuse, this`numinuse, this`pending
      ensures Valid() && inuse == old(inuse)[r := old(inuse)[r][k := true]]
      ensures numinuse == old(numinuse)[r := old(numinuse)[r] + 1]
      ensures pending == old(pending) + {Record(r, k)} && Record(r, k) !in old(pending) && Record(r, k) !in out
      ensures old(NoLeak()) ==> NoLeak()
    {
      hide Root, Slot, Record, CountTrue;
      RecordParts(r, k);
      assert Record(r, k) !in out && Record(r, k) !in pending;
      CountTrueUpdate(inuse[r], k, true);
      inuse := inuse[r := inuse[r][k := true]];
      numinuse := numinuse[r := numinuse[r] + 1];
      pending := pending + {Record(r, k)};
    }

    /**
     * The part after alloc_kpages has answered va, with the lock held again: the page is the root's unless somebody
     * else has given it one, and then va goes back (kept is false).  Without a page the bit stays marked.
     */
    method Resume(r: nat, k: nat, va: int) returns (p: int, kept: bool)
      requires Valid() && k < PER && Record(r, k) in pending && va >= 0 && va !in PagesOf(page)
      modifies this`page, this`out, this`pending
      ensures Valid() && r < |old(page)| && pending == old(pending) - {Record(r, k)}
      ensures (kept <==> va != 0 && old(page)[r] == 0) && |page| == old(|page|)
      ensures page == if kept then old(page)[r := va] else old(page)
      ensures PagesOf(page) == if kept then PagesOf(old(page)) + {va} else PagesOf(old(page))
      ensures p == if page[r] == 0 then NIL else Record(r, k)
      ensures Record(r, k) != NIL && Record(r, k) !in old(out)
      ensures out == if p == NIL then old(out) else old(out) + {p}
      ensures p != NIL && old(NoLeak()) ==> NoLeak()
    {
      hide Root, Slot, Record, CountTrue;
      RecordParts(r, k);
      NotNil(r, k);
      kept := false;
      if va != 0 && page[r] == 0 {
        PagesGrow(page, r, va);
        page := page[r := va];
        kept := true;
      }
      pending := pending - {Record(r, k)};
      if page[r] == 0 {
        return NIL, kept;
      }
      p := Record(r, k);
      out := out + {p};
    }

    /**
     * allocpageref without interruption: the first clear bit k of the first root with room.  A root without a page asks
     * alloc_kpages for one; va is its answer.  If that fails the bit stays marked.
     */
    method Alloc(va: int) returns (p: int, ghost k: nat)
      requires Valid() && va >= 0 && va !in PagesOf(page)
      modifies this
      ensures Valid() && |page| == old(|page|) && pending == old(pending)
      ensures AllFull(old(numinuse)) ==>
        p == NIL && numinuse == old(numinuse) && inuse == old(inuse) && page == old(page)
      ensures forall r :: RoomAt(old(numinuse), r) ==>
        numinuse == old(numinuse)[r := old(numinuse)[r] + 1] && k < PER == |old(inuse)[r]| && !old(inuse)[r][k]
      ensures forall r :: RoomAt(old(numinuse), r) ==>
        inuse == old(inuse)[r := old(inuse)[r][k := true]] && forall j :: 0 <= j < k ==> old(inuse)[r][j]
      ensures forall r :: RoomAt(old(numinuse), r) ==>
        page == old(page)[r := if old(page)[r] == 0 then va else old(page)[r]] &&
        p == if page[r] == 0 then NIL else Record(r, k)
      ensures p != NIL ==> p !in old(out) && out == old(out) + {p} && 0 <= Root(p) < |page| && page[Root(p)] != 0
      ensures p == NIL ==> out == old(out) && page == old(page)
      ensures page != old(page) ==> va != 0 && p != NIL
      ensures PagesOf(page) == if page == old(page) then PagesOf(old(page)) else PagesOf(old(page)) + {va}
      ensures va != 0 && old(NoLeak()) ==> NoLeak()
    {
      hide Root, Slot, Record, CountTrue;
      var found, r, i := Reserve();
      k := i;
      if !found {
        return NIL, k;
      }
      var kept;
      RecordParts(r, k);
      p, kept := Resume(r, i, if page[r] == 0 then va else 0);
    }

    /** Some root before record p's has bits set but no page. */
    ghost predicate Stuck(p: int)
      reads this
    {
      exists r :: 0 <= r < Root(p) && r < |page| && r < |numinuse| && page[r] == 0 && numinuse[r] != 0
    }

    /** For a record in use that means: some root before its own never got a page, though all its bits are marked. */
    lemma StuckMeans(p: int)
      requires Valid() && p in out
      ensures Stuck(p) <==> exists r :: 0 <= r < Root(p) && page[r] == 0
      ensures forall r :: 0 <= r < Root(p) && page[r] == 0 ==> numinuse[r] == PER
    {
      hide Root, Slot;
    }

    /** A root without a page that still has bits set has leaked them, or a thread is asking for its page. */
    lemma LeakedRoot(r: nat)
      requires Valid() && r < |page| && page[r] == 0 && numinuse[r] != 0 && NoLeak()
      ensures exists p :: p in pending && Root(p) == r
    {
      CountTrueBounds(inuse[r]);
      var k :| 0 <= k < PER && inuse[r][k];
      RecordParts(r, k);
      assert Record(r, k) in pending;
    }

    /** While no bit has leaked and no thread is asking for a page, no free can fail. */
    lemma NeverStuck()
      requires Valid()
      ensures NoLeak() && pending == {} ==> forall p :: !Stuck(p)
    {
      hide Root, Slot, Record, CountTrue;
      if NoLeak() && pending == {} {
        forall p
          ensures !Stuck(p)
        {
          if r :| 0 <= r < Root(p) && r < |page| && page[r] == 0 && numinuse[r] != 0 {
            LeakedRoot(r);
          }
        }
      }
    }

    /**
     * freepageref: finds the root whose page holds p and clears its bit.  On the way the source asserts
     * that a root without a page has no bit set; ok tells whether that assertion held, and nothing has
     * changed when it did not.
     */
    method Free(p: int) returns (ok: bool)
      requires Valid() && p in out
      modifies this
      ensures ok <==> !old(Stuck(p))
      ensures Valid() && page == old(page) && pending == old(pending) && out == if ok then old(out) - {p} else old(out)
      ensures 0 <= Root(p) < |old(numinuse)| && Slot(p) < |old(inuse)[Root(p)]| && old(numinuse)[Root(p)] > 0
      ensures numinuse == if ok then old(numinuse)[Root(p) := old(numinuse)[Root(p)] - 1] else old(numinuse)
      ensures inuse == if ok then old(inuse)[Root(p) := old(inuse)[Root(p)][Slot(p) := false]] else old(inuse)
      ensures old(NoLeak()) ==> NoLeak()
    {
      hide Root, Slot, Record, CountTrue;
      RecordWhole(p);
      MarkedCounted(p);
      var whichroot := 0;
      while whichroot < |page|
        invariant whichroot <= Root(p)
        invariant forall r :: 0 <= r < whichroot && page[r] == 0 ==> numinuse[r] == 0
        invariant inuse == old(inuse) && page == old(page) && numinuse == old(numinuse) && out == old(out)
      {
        if page[whichroot] == 0 {
          if numinuse[whichroot] != 0 {
            return false;
          }
        } else if Root(p) == whichroot {
          ClearBit(p);
          return true;
        }
        whichroot := whichroot + 1;
      }
      assert false;
    }

    lemma MarkedCounted(p: int)
      requires Valid() && Marked(p)
      ensures numinuse[Root(p)] > 0
    {
      hide Root, Slot;
      CountTrueBounds(inuse[Root(p)]);
    }

    /** The bit and the counter of record p's root. */
    method ClearBit(p: int)
      requires Valid() && p in out
      modifies this`inuse, this`numinuse, this`out
      ensures Valid() && out == old(out) - {p}
      ensures 0 <= Root(p) < |old(numinuse)| && Slot(p) < |old(inuse)[Root(p)]| && old(numinuse)[Root(p)] > 0
      ensures numinuse == old(numinuse)[Root(p) := old(numinuse)[Root(p)] - 1]
      ensures inuse == old(inuse)[Root(p) := old(inuse)[Root(p)][Slot(p) := false]]
      ensures old(NoLeak()) ==> NoLeak()
    {
      hide Root, Slot, Record, CountTrue;
      RecordWhole(p);
      MarkedCounted(p);
      var r, k := Root(p), Slot(p);
      CountTrueUpdate(inuse[r], k, false);
      OneRecord(p);
      inuse := inuse[r := inuse[r][k := false]];
      numinuse := numinuse[r := numinuse[r] - 1];
      out := out - {p};
    }
  }

  /** A record is the only one with its root and slot. */
  lemma OneRecord(p: int)
    ensures forall q :: Root(q) == Root(p) && Slot(q) == Slot(p) ==> q == p
    ensures forall r, k :: 0 <= k < PER && Record(r, k) == p ==> r == Root(p) && k == Slot(p)
  {
  }

  // ---------------------------------------------------------------- how a pool gets stuck

  /**
   * PER failures to get the first root's page leak all its bits; the next record comes from the second root, and it
   * cannot be freed.
   */
  method StuckAfterFailures(va: int) returns (pool: Pool, p: int, ok: bool)
    requires va > 0
    ensures fresh(pool) && pool.Valid() && pool.pending == {} && p in pool.out && pool.Stuck(p) && !ok
  {
    pool := new Pool(2);
    var i := 0;
    while i < PER
      invariant 0 <= i <= PER && fresh(pool) && pool.Valid() && pool.pending == {} && PagesOf(pool.page) == {}
      invariant pool.page == [0, 0] && pool.numinuse == [i, 0]
    {
      assert RoomAt(pool.numinuse, 0);
      ghost var k;
      p, k := pool.Alloc(0);
      i := i + 1;
    }
    p, ok := TakeAndFree(pool, va);
  }

  /**
   * No request fails: PER threads are asking for the first root's page while another takes a record of the second
   * root and cannot free it.
   */
  method StuckWhileAsking(va: int) returns (pool: Pool, p: int, ok: bool)
    requires va > 0
    ensures fresh(pool) && pool.Valid() && pool.NoLeak() && p in pool.out && pool.Stuck(p) && !ok
  {
    pool := new Pool(2);
    var i := 0;
    while i < PER
      invariant 0 <= i <= PER && fresh(pool) && pool.Valid() && pool.NoLeak() && PagesOf(pool.page) == {}
      invariant pool.page == [0, 0] && pool.numinuse == [i, 0]
    {
      assert RoomAt(pool.numinuse, 0);
      var found, r, k := pool.Reserve();
      i := i + 1;
    }
    p, ok := TakeAndFree(pool, va);
  }

  /** With the first of two roots full but without a page, a record of the second is taken and cannot be freed. */
  method TakeAndFree(pool: Pool, va: int) returns (p: int, ok: bool)
    requires va > 0 && pool.Valid() && pool.page == [0, 0] && pool.numinuse == [PER, 0]
    modifies pool
    ensures pool.Valid() && pool.pending == old(pool.pending) && p in pool.out && pool.Stuck(p) && !ok
    ensures old(pool.NoLeak()) ==> pool.NoLeak()
  {
    assert RoomAt(pool.numinuse, 1);
    ghost var k;
    p, k := pool.Alloc(va);
    RecordParts(1, k);
    assert pool.page[0] == 0 && Root(p) == 1;
    pool.StuckMeans(p);
    assert pool.Stuck(p);
    ok := pool.Free(p);
  }
}
