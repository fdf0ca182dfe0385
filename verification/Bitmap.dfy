/**
 * A fixed-size array of bits kept in bytes, as a set of the numbers below its size.
 */
module Bitmap {
  import opened Basics

  const BITS_PER_WORD: nat := 8
  const WORD_ALLBITS: bv8 := 0xff

  /** One shifted left by offset, written out. */
  function Mask(offset: nat): bv8
    requires offset < BITS_PER_WORD
  {
    if offset == 0 then 1 else if offset == 1 then 2 else if offset == 2 then 4 else if offset == 3 then 8
    else if offset == 4 then 16 else if offset == 5 then 32 else if offset == 6 then 64 else 128
  }

  lemma MaskIsShift(offset: nat)
    requires offset < BITS_PER_WORD
    ensures Mask(offset) == (1 as bv8) << offset
  {
  }

  predicate Bit(w: bv8, offset: nat)
    requires offset < BITS_PER_WORD
  {
    w & Mask(offset) != 0
  }

  /** unsigned numbers are 32 bits wide. */
  const UNSIGNED_RANGE: nat := 0x1_0000_0000

  /** DIVROUNDUP of a number of bits, with the sum wrapping. */
  function Words(n: nat): nat { (n + BITS_PER_WORD - 1) % UNSIGNED_RANGE / BITS_PER_WORD }

  /** Or-ing a mask in sets its bit and no other; and-ing its complement in clears it and no other. */
  lemma MaskChangesOne(w: bv8, k: nat, j: nat)
    requires k < BITS_PER_WORD && j < BITS_PER_WORD
    ensures Bit(w | Mask(k), j) <==> j == k || Bit(w, j)
    ensures Bit(w & !Mask(k), j) <==> j != k && Bit(w, j)
  {
  }

  lemma EveryMask(w: bv8)
    ensures w == WORD_ALLBITS <==>
      w & 1 != 0 && w & 2 != 0 && w & 4 != 0 && w & 8 != 0 && w & 16 != 0 && w & 32 != 0 && w & 64 != 0 && w & 128 != 0
  {
  }

  /** The shortcut the search takes: a word differs from all ones exactly when one of its bits is clear. */
  lemma AllBits(w: bv8)
    ensures w == WORD_ALLBITS <==> forall k :: 0 <= k < BITS_PER_WORD ==> Bit(w, k)
  {
    EveryMask(w);
    if forall k :: 0 <= k < BITS_PER_WORD ==> Bit(w, k) {
      assert Bit(w, 0) && Bit(w, 1) && Bit(w, 2) && Bit(w, 3) && Bit(w, 4) && Bit(w, 5) && Bit(w, 6) && Bit(w, 7);
    }
  }

  /** The inner loop of the search: the first clear bit of a word that has one. */
  method FirstClear(w: bv8) returns (offset: nat)
    requires w != WORD_ALLBITS
    ensures offset < BITS_PER_WORD && !Bit(w, offset) && forall k: nat :: k < offset ==> Bit(w, k)
  {
    AllBits(w);
    ghost var clear: nat :| clear < BITS_PER_WORD && !Bit(w, clear);
    offset := 0;
    while w & Mask(offset) != 0
      invariant 0 <= offset <= clear && forall k: nat :: k < offset ==> Bit(w, k)
      decreases BITS_PER_WORD - offset
    {
      offset := offset + 1;
    }
  }

  /** A bit's number determines its word and its place in it. */
  lemma SamePlace(ix: nat, offset: nat)
    requires offset < BITS_PER_WORD
    ensures forall i: nat ::
      i == ix * BITS_PER_WORD + offset <==> i / BITS_PER_WORD == ix && i % BITS_PER_WORD == offset
  {
  }

  class Map {
    const nbits: nat
    const v: array<bv8>

    /** Bit i of the array, counting on past nbits to the end of the last word. */
    ghost predicate At(i: nat)
      reads v
      requires i < v.Length * BITS_PER_WORD
    {
      Bit(v[i / BITS_PER_WORD], i % BITS_PER_WORD)
    }

    /** The numbers marked. */
    ghost function Marked(): set<nat>
      reads v
      requires nbits <= v.Length * BITS_PER_WORD
    {
      set i: nat | i < nbits && At(i)
    }

    /** The array is just long enough, and the bits left over in its last word are in use. */
    ghost predicate Valid()
      reads v
    {
      nbits < UNSIGNED_RANGE && v.Length == Words(nbits) && nbits <= v.Length * BITS_PER_WORD &&
      forall i: nat :: nbits <= i < v.Length * BITS_PER_WORD ==> At(i)
    }

    /** Rounding up wraps for the seven largest numbers, and then the array has no word at all. */
    constructor (n: nat)
      requires n < UNSIGNED_RANGE
      ensures nbits == n && v.Length == Words(n) && fresh(v)
      ensures Valid() <==> n <= UNSIGNED_RANGE - BITS_PER_WORD
      ensures if Valid() then Marked() == {} else v.Length == 0
    {
      nbits := n;
      v := new bv8[Words(n)](_ => 0);
      new;
      var words := Words(n);
      assert forall i: nat :: i < v.Length * BITS_PER_WORD ==> !At(i) by { ClearWord(); }
      if words > n / BITS_PER_WORD {
        var ix := words - 1;
        var overbits := n - ix * BITS_PER_WORD;
        assert n / BITS_PER_WORD == words - 1;
        assert 0 < overbits < BITS_PER_WORD;
        var j := overbits;
        while j < BITS_PER_WORD
          invariant overbits <= j <= BITS_PER_WORD
          invariant forall i: nat :: i < v.Length * BITS_PER_WORD ==> (At(i) <==> n <= i < ix * BITS_PER_WORD + j)
        {
          SetBit(ix, j);
          j := j + 1;
        }
      }
    }

    /** bitmap_translate: the word and the bit in it. */
    function Translate(bitno: nat): (r: (nat, nat))
      ensures r.1 < BITS_PER_WORD && bitno == r.0 * BITS_PER_WORD + r.1
      ensures Mask(r.1) == (1 as bv8) << r.1
    {
      MaskIsShift(bitno % BITS_PER_WORD);
      (bitno / BITS_PER_WORD, bitno % BITS_PER_WORD)
    }

    method Mark(index: nat)
      requires Valid() && index < nbits && index !in Marked()
      modifies v
      ensures Valid() && Marked() == old(Marked()) + {index}
    {
      var (ix, offset) := Translate(index);
      assert v[ix] & Mask(offset) == 0;
      SetBit(ix, offset);
    }

    method Unmark(index: nat)
      requires Valid() && index in Marked()
      modifies v
      ensures Valid() && Marked() == old(Marked()) - {index}
    {
      var (ix, offset) := Translate(index);
      assert v[ix] & Mask(offset) != 0;
      ClearBit(ix, offset);
    }

    method ClearBit(ix: nat, offset: nat)
      requires ix < v.Length && offset < BITS_PER_WORD
      modifies v
      ensures forall i: nat :: i < v.Length * BITS_PER_WORD ==>
        (At(i) <==> old(At(i)) && i != ix * BITS_PER_WORD + offset)
    {
      hide Mask, Bit;
      ghost var w := v[ix];
      forall k | 0 <= k < BITS_PER_WORD
        ensures Bit(w & !Mask(offset), k) <==> k != offset && Bit(w, k)
      {
        MaskChangesOne(w, offset, k);
      }
      v[ix] := v[ix] & !Mask(offset);
      SamePlace(ix, offset);
    }

    method SetBit(ix: nat, offset: nat)
      requires ix < v.Length && offset < BITS_PER_WORD
      modifies v
      ensures forall i: nat :: i < v.Length * BITS_PER_WORD ==>
        (At(i) <==> old(At(i)) || i == ix * BITS_PER_WORD + offset)
    {
      hide Mask, Bit;
      ghost var w := v[ix];
      forall k | 0 <= k < BITS_PER_WORD
        ensures Bit(w | Mask(offset), k) <==> k == offset || Bit(w, k)
      {
        MaskChangesOne(w, offset, k);
      }
      v[ix] := v[ix] | Mask(offset);
      SamePlace(ix, offset);
    }

    /** The source does not check the index; past nbits, in the last word, it finds the leftover bits set. */
    method IsSet(index: nat) returns (marked: bool)
      requires Valid() && index < v.Length * BITS_PER_WORD
      ensures marked <==> index in Marked() || index >= nbits
    {
      var (ix, offset) := Translate(index);
      marked := v[ix] & Mask(offset) != 0;
      assert marked <==> At(index);
    }

    /** The search for a word that is not all ones, and for the clear bit in it. */
    method FindClear() returns (ix: nat, offset: nat)
      requires Valid()
      ensures ix <= v.Length && offset < BITS_PER_WORD
      ensures forall i: nat :: i < ix * BITS_PER_WORD ==> At(i)
      ensures ix < v.Length ==> forall i: nat :: i < ix * BITS_PER_WORD + offset ==> At(i)
      ensures ix < v.Length ==> ix * BITS_PER_WORD + offset < nbits && !At(ix * BITS_PER_WORD + offset)
    {
      var maxix := Words(nbits);
      ix, offset := 0, 0;
      while ix < maxix
        invariant 0 <= ix <= maxix && offset == 0
        invariant forall i: nat :: i < ix * BITS_PER_WORD ==> At(i)
      {
        AllBits(v[ix]);
        hide Bit, Mask;
        if v[ix] != WORD_ALLBITS {
          offset := FirstClear(v[ix]);
          assert !At(ix * BITS_PER_WORD + offset);
          forall i: nat | ix * BITS_PER_WORD <= i < ix * BITS_PER_WORD + offset
            ensures At(i)
          {
            assert i / BITS_PER_WORD == ix && Bit(v[ix], i - ix * BITS_PER_WORD);
          }
          return;
        }
        ix := ix + 1;
      }
    }

    /** The least number not marked, marked now; None, for ENOSPC, exactly when every number is marked. */
    method Alloc() returns (index: Option<nat>)
      requires Valid()
      modifies v
      ensures Valid()
      ensures index.None? <==> forall i: nat :: i < nbits ==> i in old(Marked())
      ensures index.None? ==> Marked() == old(Marked())
      ensures index.Some? ==>
        index.value < nbits && index.value !in old(Marked()) && Marked() == old(Marked()) + {index.value}
      ensures index.Some? ==> forall i: nat :: i < index.value ==> i in old(Marked())
    {
      var ix, offset := FindClear();
      if ix == v.Length {
        assert forall i: nat :: i < nbits ==> i in Marked();
        assert Marked() == old(Marked());
        return None;
      }
      var found := ix * BITS_PER_WORD + offset;
      assert found !in Marked();
      SetBit(ix, offset);
      return Some(found);
    }
  }

  lemma ClearWord()
    ensures forall k :: 0 <= k < BITS_PER_WORD ==> !Bit(0, k)
  {
  }
}
