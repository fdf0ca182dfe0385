/**
 * Scatter/gather transfers between a buffer and the memory a list of iovecs describes, in system space.
 */
module UioMove {

  /** size_t is 32 bits wide. */
  const SIZE_T: nat := 0x1_0000_0000

  datatype Iovec = Iovec(base: nat, len: nat)

  datatype Rw = Read | Write

  // ---------------------------------------------------------------- what a list of iovecs stands for

  function Range(base: nat, len: nat): (r: seq<nat>)
    ensures |r| == len
  {
    seq(len, i => base + i)
  }

  /** The addresses of the bytes to be transferred, in order. */
  function Addrs(iovs: seq<Iovec>): seq<nat> {
    if iovs == [] then [] else Range(iovs[0].base, iovs[0].len) + Addrs(iovs[1..])
  }

  /** r bytes from the start end where some iovec ends. */
  ghost predicate Boundary(iovs: seq<Iovec>, r: nat) {
    r == 0 || (iovs != [] && iovs[0].len <= r && Boundary(iovs[1..], r - iovs[0].len))
  }

  /** data[i] is stored at addrs[i], one after another. */
  function Scatter(mem: seq<int>, addrs: seq<nat>, data: seq<int>): (r: seq<int>)
    ensures |r| == |mem|
    decreases |addrs|
  {
    if addrs == [] || data == [] then mem
    else Scatter(if addrs[0] < |mem| then mem[addrs[0] := data[0]] else mem, addrs[1..], data[1..])
  }

  /** The bytes at addrs. */
  function Gather(mem: seq<int>, addrs: seq<nat>): seq<int> {
    if addrs == [] then [] else [if addrs[0] < |mem| then mem[addrs[0]] else 0] + Gather(mem, addrs[1..])
  }

  lemma {:induction false} ScatterAppend(mem: seq<int>, a: seq<nat>, b: seq<nat>, d: seq<int>, e: seq<int>)
    requires |a| == |d|
    ensures Scatter(mem, a + b, d + e) == Scatter(Scatter(mem, a, d), b, e)
    decreases |a|
  {
    if a == [] {
      assert a + b == b && d + e == e;
    } else {
      assert (a + b)[1..] == a[1..] + b && (d + e)[1..] == d[1..] + e;
      ScatterAppend(if a[0] < |mem| then mem[a[0] := d[0]] else mem, a[1..], b, d[1..], e);
    }
  }

  lemma {:induction false} GatherAppend(mem: seq<int>, a: seq<nat>, b: seq<nat>)
    ensures Gather(mem, a + b) == Gather(mem, a) + Gather(mem, b) && |Gather(mem, a)| == |a|
  {
    if a == [] {
      assert a + b == b;
    } else {
      assert (a + b)[1..] == a[1..] + b;
      GatherAppend(mem, a[1..], b);
    }
  }

  /** With no address repeated, each byte is at its address and can be gathered again, and other memory is as before. */
  lemma {:induction false} ScatterGather(mem: seq<int>, addrs: seq<nat>, data: seq<int>)
    requires |addrs| == |data| && forall i, j :: 0 <= i < j < |addrs| ==> addrs[i] != addrs[j]
    requires forall i :: 0 <= i < |addrs| ==> addrs[i] < |mem|
    ensures Gather(Scatter(mem, addrs, data), addrs) == data
    ensures forall i :: 0 <= i < |addrs| ==> Scatter(mem, addrs, data)[addrs[i]] == data[i]
    ensures forall x: nat :: x < |mem| && x !in addrs ==> Scatter(mem, addrs, data)[x] == mem[x]
    decreases |addrs|
  {
    if addrs != [] {
      var mem' := mem[addrs[0] := data[0]];
      assert addrs[0] !in addrs[1..];
      ScatterGather(mem', addrs[1..], data[1..]);
    }
  }

  // ---------------------------------------------------------------- the loop's control

  /** The iovecs, bytes wanted and uio_resid when the loop stops, the bytes moved, and whether it stopped in a panic. */
  datatype Outcome = Outcome(iovs: seq<Iovec>, n: nat, resid: nat, moved: nat, panicked: bool)

  function Min(a: nat, b: nat): nat { if a < b then a else b }

  /** size bytes of the first iovec are done with. */
  function Advance(iovs: seq<Iovec>, size: nat): (r: seq<Iovec>)
    requires iovs != [] && size <= iovs[0].len
    ensures |r| == |iovs| && r[1..] == iovs[1..]
  {
    [Iovec(iovs[0].base + size, iovs[0].len - size)] + iovs[1..]
  }

  /** The loop of uiomove; uio_resid wraps if it is taken below zero. */
  function Loop(iovs: seq<Iovec>, n: nat, resid: nat): Outcome
    decreases |iovs|, n
  {
    if n == 0 || resid == 0 then Outcome(iovs, n, resid, 0, false)
    else if iovs == [] then Outcome(iovs, n, resid, 0, true)
    else
      var size := Min(iovs[0].len, n);
      if size == 0 then
        if |iovs| == 1 then Outcome([], n, resid, 0, true) else Loop(iovs[1..], n, resid)
      else
        var rest := Loop(Advance(iovs, size), n - size, Less(resid, size));
        rest.(moved := size + rest.moved)
  }

  /** Unsigned subtraction. */
  function Less(a: nat, b: nat): nat { (a - b) % SIZE_T }

  lemma AddrsStep(iovs: seq<Iovec>, size: nat)
    requires iovs != [] && size <= iovs[0].len
    ensures Addrs(iovs) == Range(iovs[0].base, size) + Addrs(Advance(iovs, size))
  {
    hide *;
    AddrsUnfold(iovs);
    AdvanceUnfold(iovs, size);
    RangeSplit(iovs[0].base, iovs[0].len, size);
    Reassociate(Range(iovs[0].base, size), Range(iovs[0].base + size, iovs[0].len - size), Addrs(iovs[1..]));
  }

  lemma AdvanceUnfold(iovs: seq<Iovec>, size: nat)
    requires iovs != [] && size <= iovs[0].len
    ensures Addrs(Advance(iovs, size)) == Range(iovs[0].base + size, iovs[0].len - size) + Addrs(iovs[1..])
  {
    hide Range;
  }

  lemma AddrsUnfold(iovs: seq<Iovec>)
    requires iovs != []
    ensures Addrs(iovs) == Range(iovs[0].base, iovs[0].len) + Addrs(iovs[1..])
  {
    hide Range;
  }

  lemma RangeSplit(base: nat, len: nat, size: nat)
    requires size <= len
    ensures Range(base, len) == Range(base, size) + Range(base + size, len - size)
  {
  }

  lemma Reassociate(a: seq<nat>, b: seq<nat>, c: seq<nat>)
    ensures (a + b) + c == a + (b + c)
  {
  }

  lemma LoopChunk(iovs: seq<Iovec>, n: nat, resid: nat, size: nat)
    requires iovs != [] && n > 0 && resid > 0 && size == Min(iovs[0].len, n) > 0
    ensures size <= iovs[0].len && size <= n
    ensures var rest := Loop(Advance(iovs, size), n - size, (resid - size) % SIZE_T);
      Loop(iovs, n, resid) == rest.(moved := size + rest.moved)
  {
  }

  lemma LoopSkip(iovs: seq<Iovec>, n: nat, resid: nat)
    requires iovs != [] && n > 0 && resid > 0 && Min(iovs[0].len, n) == 0
    ensures iovs[0].len == 0
    ensures Loop(iovs, n, resid) == if |iovs| == 1 then Outcome([], n, resid, 0, true) else Loop(iovs[1..], n, resid)
  {
  }

  lemma LoopDone(iovs: seq<Iovec>, n: nat, resid: nat)
    requires n == 0 || resid == 0
    ensures Loop(iovs, n, resid) == Outcome(iovs, n, resid, 0, false)
  {
  }

  /** The loop has used up the first addresses and is left with the others. */
  ghost predicate TakesFront(iovs: seq<Iovec>, n: nat, r: Outcome) {
    r.moved <= n && r.n == n - r.moved && r.moved <= |Addrs(iovs)| && Addrs(r.iovs) == Addrs(iovs)[r.moved..]
  }

  /** However the loop ends. */
  lemma {:induction false} LoopTakesFront(iovs: seq<Iovec>, n: nat, resid: nat)
    ensures TakesFront(iovs, n, Loop(iovs, n, resid))
    decreases |iovs|, n
  {
    if n != 0 && resid != 0 && iovs != [] {
      var size := Min(iovs[0].len, n);
      if size == 0 {
        assert Addrs(iovs) == Addrs(iovs[1..]);
        if |iovs| > 1 {
          LoopTakesFront(iovs[1..], n, resid);
        }
      } else {
        AddrsStep(iovs, size);
        LoopTakesFront(Advance(iovs, size), n - size, Less(resid, size));
        FrontStep(iovs, n, size, Loop(Advance(iovs, size), n - size, Less(resid, size)));
      }
    }
  }

  lemma FrontStep(iovs: seq<Iovec>, n: nat, size: nat, rest: Outcome)
    requires iovs != [] && size <= iovs[0].len && size <= n && TakesFront(Advance(iovs, size), n - size, rest)
    requires Addrs(iovs) == Range(iovs[0].base, size) + Addrs(Advance(iovs, size))
    ensures TakesFront(iovs, n, rest.(moved := size + rest.moved))
  {
    hide Addrs;
    assert Addrs(iovs)[size + rest.moved..] == Addrs(Advance(iovs, size))[rest.moved..];
  }

  ghost predicate Exact(iovs: seq<Iovec>, n: nat, resid: nat) {
    var r := Loop(iovs, n, resid);
    !r.panicked && r.moved == Min(n, resid) && r.resid == resid - r.moved
  }

  /** A caller asks for no more than uio_resid, or uio_resid ends at the end of an iovec. */
  ghost predicate Fits(iovs: seq<Iovec>, n: nat, resid: nat) {
    n <= resid || Boundary(iovs, resid)
  }

  lemma FitsStep(iovs: seq<Iovec>, n: nat, resid: nat)
    requires n > 0 && resid > 0 && iovs != [] && Min(iovs[0].len, n) > 0
    ensures var size := Min(iovs[0].len, n);
      Fits(iovs, n, resid) <==>
      size <= resid && Fits(Advance(iovs, size), n - size, resid - size)
  {
    var size := Min(iovs[0].len, n);
    var rest := Advance(iovs, size);
    assert rest[1..] == iovs[1..];
    if size <= resid && resid < n {
      assert size == iovs[0].len ==> (Boundary(rest, resid - size) <==> Boundary(iovs[1..], resid - size));
    }
  }

  /**
   * Where the iovecs cover uio_resid, uiomove moves exactly min(n, resid) bytes and takes as many off uio_resid if
   * and only if n is at most uio_resid or uio_resid ends at the end of an iovec.
   */
  lemma {:induction false} ExactIffFits(iovs: seq<Iovec>, n: nat, resid: nat)
    requires resid <= |Addrs(iovs)| && resid < SIZE_T && n < SIZE_T
    ensures Exact(iovs, n, resid) <==> Fits(iovs, n, resid)
    decreases |iovs|, n
  {
    if n == 0 || resid == 0 {
    } else {
      assert iovs != [];
      var size := Min(iovs[0].len, n);
      if size == 0 {
        assert Addrs(iovs) == Addrs(iovs[1..]);
        ExactIffFits(iovs[1..], n, resid);
      } else {
        var rest := Advance(iovs, size);
        FitsStep(iovs, n, resid);
        AddrsStep(iovs, size);
        if size <= resid {
          ExactIffFits(rest, n - size, resid - size);
        }
      }
    }
  }

  /**
   * Iovecs shorter than uio_resid end in a panic exactly when more is asked for than they describe; what they describe,
   * or all that was asked for, has been moved.
   */
  lemma {:induction false} ShortIovecsPanic(iovs: seq<Iovec>, n: nat, resid: nat)
    requires |Addrs(iovs)| < resid < SIZE_T
    ensures Loop(iovs, n, resid).panicked <==> n > |Addrs(iovs)|
    ensures Loop(iovs, n, resid).moved == Min(n, |Addrs(iovs)|)
    decreases |iovs|, n
  {
    if n > 0 && iovs != [] {
      var size := Min(iovs[0].len, n);
      if size == 0 {
        assert Addrs(iovs) == Addrs(iovs[1..]);
        ShortIovecsPanic(iovs[1..], n, resid);
      } else {
        AddrsStep(iovs, size);
        ShortIovecsPanic(Advance(iovs, size), n - size, resid - size);
      }
    }
  }

  /** An input outside the condition: five bytes are left in a ten-byte iovec, ten are asked for, and all ten move. */
  lemma OvershootExample()
    ensures !Exact([Iovec(0, 10)], 10, 5)
    ensures Loop([Iovec(0, 10)], 10, 5).moved == 10 && Loop([Iovec(0, 10)], 10, 5).resid == SIZE_T - 5
  {
    assert Loop([Iovec(10, 0)], 0, SIZE_T - 5).moved == 0;
  }

  // ---------------------------------------------------------------- moving blocks of bytes

  lemma {:induction false} ScatterRange(mem: seq<int>, base: nat, data: seq<int>)
    requires base + |data| <= |mem|
    ensures Scatter(mem, Range(base, |data|), data) == mem[..base] + data + mem[base + |data|..]
    decreases |data|
  {
    var a := Range(base, |data|);
    if data != [] {
      var mem' := mem[base := data[0]];
      assert a[1..] == Range(base + 1, |data| - 1);
      ScatterRange(mem', base + 1, data[1..]);
      assert mem'[..base + 1] == mem[..base] + [data[0]];
      assert mem'[base + 1 + |data[1..]|..] == mem[base + |data|..];
      assert data == [data[0]] + data[1..];
    }
  }

  lemma {:induction false} GatherRange(mem: seq<int>, base: nat, len: nat)
    requires base + len <= |mem|
    ensures Gather(mem, Range(base, len)) == mem[base..base + len]
    decreases len
  {
    if len > 0 {
      assert Range(base, len)[1..] == Range(base + 1, len - 1);
      GatherRange(mem, base + 1, len - 1);
    }
  }

  method Memmove(dst: array<int>, to: nat, src: array<int>, from: nat, size: nat)
    requires dst != src && to + size <= dst.Length && from + size <= src.Length
    modifies dst
    ensures dst[..] == old(dst[..to]) + src[from..from + size] + old(dst[to + size..])
  {
    var i := 0;
    while i < size
      invariant 0 <= i <= size
      invariant dst[to..to + i] == src[from..from + i]
      invariant dst[..to] == old(dst[..to]) && dst[to + i..] == old(dst[to + i..])
    {
      dst[to + i] := src[from + i];
      assert dst[to..to + i + 1] == dst[to..to + i] + [dst[to + i]];
      assert src[from..from + i + 1] == src[from..from + i] + [src[from + i]];
      assert old(dst[to + i..])[1..] == old(dst[to + i + 1..]);
      assert dst[to + i + 1..] == dst[to + i..][1..];
      i := i + 1;
    }
    assert dst[..] == dst[..to] + dst[to..to + size] + dst[to + size..];
  }

  predicate InMemory(iovs: seq<Iovec>, size: nat) {
    forall i :: 0 <= i < |iovs| ==> iovs[i].base + iovs[i].len <= size
  }

  lemma FirstInMemory(iovs: seq<Iovec>, limit: nat)
    requires iovs != [] && InMemory(iovs, limit)
    ensures iovs[0].base + iovs[0].len <= limit && InMemory(iovs[1..], limit)
  {
  }

  lemma RestInMemory(iovs: seq<Iovec>, size: nat, limit: nat)
    requires iovs != [] && InMemory(iovs, limit) && size <= iovs[0].len
    ensures InMemory(Advance(iovs, size), limit)
  {
  }

  class Uio {
    const mem: array<int>
    const rw: Rw
    var iovs: seq<Iovec>
    var resid: nat
    var offset: int

    /** uio_kinit: one iovec, the first len bytes of memory from base. */
    constructor (m: array<int>, base: nat, len: nat, pos: int, direction: Rw)
      requires base + len <= m.Length && len < SIZE_T
      ensures mem == m && rw == direction && offset == pos && resid == len
      ensures Addrs(iovs) == Range(base, len) && InMemory(iovs, mem.Length) && iovs != []
      ensures forall n :: 0 <= n ==> Fits(iovs, n, resid)
    {
      mem, rw, iovs, resid, offset := m, direction, [Iovec(base, len)], len, pos;
      new;
      assert Boundary(iovs[1..], 0);
    }

    /** The copy made for one iovec, in the direction of the transfer. */
    method TransferChunk(base: nat, buf: array<int>, p: nat, size: nat)
      requires buf != mem && p + size <= buf.Length && base + size <= mem.Length
      modifies mem, buf
      ensures Copied(rw, old(mem[..]), old(buf[..]), mem[..], buf[..], base, p, size)
    {
      if rw == Read {
        ScatterRange(mem[..], base, buf[p..p + size]);
        Memmove(mem, base, buf, p, size);
      } else {
        GatherRange(mem[..], base, size);
        Memmove(buf, p, mem, base, size);
      }
    }

    /** The loop of uiomove, where there is an iovec to start with. */
    method MoveChunks(buf: array<int>, n: nat) returns (ok: bool)
      requires buf != mem && n <= buf.Length && InMemory(iovs, mem.Length)
      requires iovs != []
      modifies this`iovs, this`resid, this`offset, mem, buf
      ensures ok == !Loop(old(iovs), n, old(resid)).panicked
      ensures iovs == Loop(old(iovs), n, old(resid)).iovs && resid == Loop(old(iovs), n, old(resid)).resid
      ensures offset == old(offset) + Loop(old(iovs), n, old(resid)).moved && InMemory(iovs, mem.Length)
      ensures ok ==> iovs != []
      ensures TakesFront(old(iovs), n, Loop(old(iovs), n, old(resid)))
      ensures var m := Loop(old(iovs), n, old(resid)).moved;
        rw == Read ==>
          buf[..] == old(buf[..]) && mem[..] == Scatter(old(mem[..]), Addrs(old(iovs))[..m], old(buf[..])[..m])
      ensures var m := Loop(old(iovs), n, old(resid)).moved;
        rw == Write ==>
          mem[..] == old(mem[..]) && buf[..] == Gather(old(mem[..]), Addrs(old(iovs))[..m]) + old(buf[..])[m..]
    {
      hide Addrs, Scatter, Gather, Range, TakesFront, Loop, Min, Copied, Transferred, InMemory, Advance, Less;
      LoopTakesFront(iovs, n, resid);
      ghost var all, mem0, buf0, total := Addrs(iovs), mem[..], buf[..], Loop(iovs, n, resid).moved;
      var p: nat, left: nat := 0, n;
      ok := true;
      NothingMoved(rw, mem0, buf0, all);
      while left > 0 && resid > 0
        invariant p + left == n && p <= |all| && iovs != [] && InMemory(iovs, mem.Length)
        invariant Addrs(iovs) == all[p..] && offset == old(offset) + p
        invariant Loop(old(iovs), n, old(resid)) == Loop(iovs, left, resid).(moved := p + Loop(iovs, left, resid).moved)
        invariant Transferred(rw, mem0, buf0, mem[..], buf[..], all, p)
        decreases |iovs|, left
      {
        var v := iovs[0];
        var size := Min(v.len, left);
        FirstInMemory(iovs, mem.Length);
        if size == 0 {
          LoopSkip(iovs, left, resid);
          SkipEmpty(iovs);
          iovs := iovs[1..];
          if |iovs| == 0 {
            TransferredMeans(rw, mem0, buf0, mem[..], buf[..], all, p);
            return false;
          }
        } else {
          LoopChunk(iovs, left, resid, size);
          RestInMemory(iovs, size, mem.Length);
          AddrsStep(iovs, size);
          TakenFurther(all, p, Range(v.base, size), Addrs(Advance(iovs, size)));
          ghost var mem1, buf1 := mem[..], buf[..];
          TransferChunk(v.base, buf, p, size);
          TransferredFurther(rw, mem0, buf0, mem1, buf1, mem[..], buf[..], all, p, v.base, size);
          iovs := Advance(iovs, size);
          resid := (resid - size) % SIZE_T;
          offset := offset + size;
          p := p + size;
          left := left - size;
        }
      }
      LoopDone(iovs, left, resid);
      TransferredMeans(rw, mem0, buf0, mem[..], buf[..], all, p);
    }

    /** uiomove in system space; false is the panic about running out of buffers. */
    method Move(buf: array<int>, n: nat) returns (ok: bool)
      requires buf != mem && n <= buf.Length && InMemory(iovs, mem.Length)
      requires iovs != [] || n == 0 || resid == 0
      modifies this`iovs, this`resid, this`offset, mem, buf
      ensures ok == !Loop(old(iovs), n, old(resid)).panicked
      ensures iovs == Loop(old(iovs), n, old(resid)).iovs && resid == Loop(old(iovs), n, old(resid)).resid
      ensures offset == old(offset) + Loop(old(iovs), n, old(resid)).moved && InMemory(iovs, mem.Length)
      ensures ok ==> iovs != [] || iovs == old(iovs)
      ensures TakesFront(old(iovs), n, Loop(old(iovs), n, old(resid)))
      ensures var m := Loop(old(iovs), n, old(resid)).moved;
        rw == Read ==>
          buf[..] == old(buf[..]) && mem[..] == Scatter(old(mem[..]), Addrs(old(iovs))[..m], old(buf[..])[..m])
      ensures var m := Loop(old(iovs), n, old(resid)).moved;
        rw == Write ==>
          mem[..] == old(mem[..]) && buf[..] == Gather(old(mem[..]), Addrs(old(iovs))[..m]) + old(buf[..])[m..]
    {
      if iovs == [] {
        LoopDone(iovs, n, resid);
        NothingMoved(rw, mem[..], buf[..], Addrs(iovs));
        return true;
      }
      ok := MoveChunks(buf, n);
    }

    /** uiomovezeros: the zeros go in sixteen at a time. */
    method MoveZeros(n: nat) returns (ok: bool)
      requires rw == Read && InMemory(iovs, mem.Length) && (iovs != [] || n == 0 || resid == 0)
      modifies this`iovs, this`resid, this`offset, mem
      ensures ok == !ZeroLoop(old(iovs), n, old(resid)).panicked
      ensures ok ==>
        iovs == ZeroLoop(old(iovs), n, old(resid)).iovs && resid == ZeroLoop(old(iovs), n, old(resid)).resid
      ensures ok ==> offset == old(offset) + ZeroLoop(old(iovs), n, old(resid)).moved && InMemory(iovs, mem.Length)
      ensures ok ==> ZeroLoop(old(iovs), n, old(resid)).moved <= |Addrs(old(iovs))|
      ensures var m := ZeroLoop(old(iovs), n, old(resid)).moved;
        ok ==> mem[..] == Scatter(old(mem[..]), Addrs(old(iovs))[..m], Zeros(m))
    {
      hide Addrs, Scatter, Range, Loop, ZeroLoop, Zeros, Min, TakesFront, AmountNow;
      var zeros := new int[CHUNK](_ => 0);
      ghost var all, mem0 := Addrs(iovs), mem[..];
      ghost var p: nat := 0;
      var left: nat := n;
      ok := true;
      NoZeros(mem0, all, zeros[..]);
      while left > 0
        invariant ok && left <= n && p <= |all| && InMemory(iovs, mem.Length)
        invariant iovs != [] || left == 0 || resid == 0
        invariant Addrs(iovs) == all[p..] && offset == old(offset) + p && zeros[..] == Zeros(CHUNK) && mem != zeros
        invariant ZeroLoop(old(iovs), n, old(resid)) ==
          ZeroLoop(iovs, left, resid).(moved := p + ZeroLoop(iovs, left, resid).moved)
        invariant mem[..] == Scatter(mem0, all[..p], Zeros(p))
        decreases left
      {
        var amt := AmountNow(left);
        ZeroLoopStep(iovs, left, resid);
        ghost var k := Loop(iovs, amt, resid).moved;
        ghost var iovs0 := iovs;
        LoopTakesFront(iovs, amt, resid);
        if resid == 0 {
          LoopDone(iovs, amt, resid);
        }
        ok := Move(zeros, amt);
        if !ok {
          return;
        }
        FrontMoved(iovs0, iovs, amt, k, all, p);
        ZerosFurther(mem0, all, p, k);
        left := left - amt;
        p := p + k;
      }
      ZeroLoopEnd(iovs, resid);
    }
  }

  /** What copying one chunk of size bytes between mem at base and buf at p does. */
  ghost predicate Copied(rw: Rw, mem: seq<int>, buf: seq<int>, mem': seq<int>, buf': seq<int>, base: nat, p: nat,
                         size: nat) {
    p + size <= |buf| &&
    if rw == Read
    then buf' == buf && mem' == Scatter(mem, Range(base, size), buf[p..p + size])
    else mem' == mem && buf' == buf[..p] + Gather(mem, Range(base, size)) + buf[p + size..]
  }

  /** The first p bytes have been transferred. */
  ghost predicate Transferred(rw: Rw, mem0: seq<int>, buf0: seq<int>, mem: seq<int>, buf: seq<int>, all: seq<nat>,
                              p: nat) {
    p <= |all| && p <= |buf0| &&
    if rw == Read
    then buf == buf0 && mem == Scatter(mem0, all[..p], buf0[..p])
    else mem == mem0 && buf == Gather(mem0, all[..p]) + buf0[p..]
  }

  lemma TransferredMeans(rw: Rw, mem0: seq<int>, buf0: seq<int>, mem: seq<int>, buf: seq<int>, all: seq<nat>, p: nat)
    requires Transferred(rw, mem0, buf0, mem, buf, all, p)
    ensures p <= |all| && p <= |buf0|
    ensures rw == Read ==> buf == buf0 && mem == Scatter(mem0, all[..p], buf0[..p])
    ensures rw == Write ==> mem == mem0 && buf == Gather(mem0, all[..p]) + buf0[p..]
  {
  }

  lemma NothingMoved(rw: Rw, mem: seq<int>, buf: seq<int>, all: seq<nat>)
    ensures Transferred(rw, mem, buf, mem, buf, all, 0)
  {
    assert all[..0] == [] && buf[..0] == [] && Gather(mem, []) + buf == buf;
  }

  lemma TransferredFurther(rw: Rw, mem0: seq<int>, buf0: seq<int>, mem: seq<int>, buf: seq<int>, mem': seq<int>,
                           buf': seq<int>, all: seq<nat>, p: nat, base: nat, size: nat)
    requires Transferred(rw, mem0, buf0, mem, buf, all, p) && Copied(rw, mem, buf, mem', buf', base, p, size)
    requires |buf| == |buf0| && p + size <= |all| && all[..p + size] == all[..p] + Range(base, size)
    ensures Transferred(rw, mem0, buf0, mem', buf', all, p + size)
  {
    if rw == Read {
      ScatterAppend(mem0, all[..p], Range(base, size), buf0[..p], buf0[p..p + size]);
      assert buf0[..p + size] == buf0[..p] + buf0[p..p + size];
    } else {
      GatherAppend(mem0, all[..p], Range(base, size));
      assert buf[..p] == Gather(mem0, all[..p]) && buf[p + size..] == buf0[p + size..];
    }
  }

  lemma SkipEmpty(iovs: seq<Iovec>)
    requires iovs != [] && iovs[0].len == 0
    ensures Addrs(iovs) == Addrs(iovs[1..])
  {
  }

  lemma TakenFurther(all: seq<nat>, p: nat, a: seq<nat>, rest: seq<nat>)
    requires p <= |all| && all[p..] == a + rest
    ensures p + |a| <= |all| && all[..p + |a|] == all[..p] + a && all[p + |a|..] == rest
  {
    assert all == all[..p] + (a + rest);
  }

  // ---------------------------------------------------------------- zeros

  const CHUNK: nat := 16

  function Zeros(k: nat): seq<int> { seq(k, _ => 0) }

  function AmountNow(left: nat): (amt: nat)
    ensures amt <= left && amt <= CHUNK && (left > 0 ==> amt > 0)
  {
    Min(CHUNK, left)
  }

  /** The loop of uiomovezeros. */
  function ZeroLoop(iovs: seq<Iovec>, n: nat, resid: nat): Outcome
    decreases n
  {
    if n == 0 then Outcome(iovs, n, resid, 0, false)
    else
      var r := Loop(iovs, AmountNow(n), resid);
      if r.panicked then r
      else var rest := ZeroLoop(r.iovs, n - AmountNow(n), r.resid); rest.(moved := r.moved + rest.moved)
  }

  lemma ZeroLoopStep(iovs: seq<Iovec>, n: nat, resid: nat)
    requires n > 0
    ensures var r := Loop(iovs, AmountNow(n), resid);
      ZeroLoop(iovs, n, resid) ==
        if r.panicked then r
        else
          var rest := ZeroLoop(r.iovs, n - AmountNow(n), r.resid);
          rest.(moved := r.moved + rest.moved)
  {
  }

  lemma ZeroLoopEnd(iovs: seq<Iovec>, resid: nat)
    ensures ZeroLoop(iovs, 0, resid) == Outcome(iovs, 0, resid, 0, false)
  {
  }

  lemma NoZeros(mem: seq<int>, all: seq<nat>, zeros: seq<int>)
    requires |zeros| == CHUNK && forall i :: 0 <= i < CHUNK ==> zeros[i] == 0
    ensures all[..0] == [] && Scatter(mem, [], Zeros(0)) == mem && zeros == Zeros(CHUNK)
  {
  }

  lemma FrontMoved(iovs: seq<Iovec>, iovs': seq<Iovec>, n: nat, k: nat, all: seq<nat>, p: nat)
    requires p <= |all| && Addrs(iovs) == all[p..] && k <= |Addrs(iovs)| && Addrs(iovs') == Addrs(iovs)[k..]
    ensures p + k <= |all| && Addrs(iovs') == all[p + k..] && all[..p + k] == all[..p] + Addrs(iovs)[..k]
  {
    hide Addrs;
  }

  lemma ZerosFurther(mem: seq<int>, all: seq<nat>, p: nat, k: nat)
    requires p + k <= |all| && k <= CHUNK
    ensures Scatter(Scatter(mem, all[..p], Zeros(p)), all[p..][..k], Zeros(CHUNK)[..k]) ==
      Scatter(mem, all[..p + k], Zeros(p + k))
  {
    ScatterAppend(mem, all[..p], all[p..][..k], Zeros(p), Zeros(k));
    assert all[..p] + all[p..][..k] == all[..p + k];
    assert Zeros(p) + Zeros(k) == Zeros(p + k) && Zeros(CHUNK)[..k] == Zeros(k);
  }

  // ---------------------------------------------------------------- when the zeros are exact

  ghost predicate ZeroExact(iovs: seq<Iovec>, n: nat, resid: nat) {
    var r := ZeroLoop(iovs, n, resid);
    !r.panicked && r.moved == Min(n, resid) && r.resid == resid - r.moved
  }

  /** As for uiomove, except that a multiple of sixteen left over is never overshot either. */
  ghost predicate ZeroFits(iovs: seq<Iovec>, n: nat, resid: nat) {
    Fits(iovs, n, resid) || resid % CHUNK == 0
  }

  /** A request that does not fit moves more than uio_resid. */
  lemma {:induction false} Overshoots(iovs: seq<Iovec>, n: nat, resid: nat)
    requires resid <= |Addrs(iovs)| && resid < SIZE_T && n < SIZE_T && !Fits(iovs, n, resid)
    ensures Loop(iovs, n, resid).moved > resid
    decreases |iovs|, n
  {
    assert iovs != [];
    var size := Min(iovs[0].len, n);
    if size == 0 {
      assert Addrs(iovs) == Addrs(iovs[1..]);
      assert |iovs| > 1;
      Overshoots(iovs[1..], n, resid);
    } else {
      FitsStep(iovs, n, resid);
      AddrsStep(iovs, size);
      if size <= resid {
        Overshoots(Advance(iovs, size), n - size, resid - size);
      }
    }
  }

  lemma BoundaryStep(iovs: seq<Iovec>, size: nat, resid: nat)
    requires iovs != [] && size <= iovs[0].len && size < resid
    ensures Boundary(Advance(iovs, size), resid - size) <==> Boundary(iovs, resid)
  {
  }

  /** As long as uio_resid is not used up, moving does not change whether it ends at the end of an iovec. */
  lemma {:induction false} BoundaryAfter(iovs: seq<Iovec>, n: nat, resid: nat)
    requires n < resid <= |Addrs(iovs)| && resid < SIZE_T
    ensures var r := Loop(iovs, n, resid);
      r.moved == n && !r.panicked && r.resid == resid - n && (Boundary(r.iovs, resid - n) <==> Boundary(iovs, resid))
    decreases |iovs|, n
  {
    if n > 0 {
      assert iovs != [];
      var size := Min(iovs[0].len, n);
      if size == 0 {
        assert Addrs(iovs) == Addrs(iovs[1..]);
        BoundarySkip(iovs, resid);
        hide Boundary, Addrs;
        BoundaryAfter(iovs[1..], n, resid);
      } else {
        AddrsStep(iovs, size);
        BoundaryStep(iovs, size, resid);
        hide Boundary, Addrs, Advance;
        BoundaryAfter(Advance(iovs, size), n - size, resid - size);
      }
    }
  }

  lemma BoundarySkip(iovs: seq<Iovec>, resid: nat)
    requires iovs != [] && iovs[0].len == 0 && 0 < resid <= |Addrs(iovs)|
    ensures |iovs| > 1 && (Boundary(iovs[1..], resid) <==> Boundary(iovs, resid))
  {
  }

  /** uiomovezeros moves exactly min(n, resid) zeros if and only if the request fits in this sense. */
  lemma {:induction false} ZeroExactIffFits(iovs: seq<Iovec>, n: nat, resid: nat)
    requires resid <= |Addrs(iovs)| && resid < SIZE_T && n < SIZE_T
    ensures ZeroExact(iovs, n, resid) <==> ZeroFits(iovs, n, resid)
    decreases n
  {
    if n > 0 {
      var amt := AmountNow(n);
      if amt < resid {
        ZeroChunkInside(iovs, n, resid);
        BoundaryAfter(iovs, amt, resid);
        LoopTakesFront(iovs, amt, resid);
        hide Loop, ZeroFits, Addrs;
        ZeroExactIffFits(Loop(iovs, amt, resid).iovs, n - amt, resid - amt);
        ZeroLoopStep(iovs, n, resid);
      } else {
        ZeroChunkLast(iovs, n, resid);
      }
    }
  }

  /** A chunk that leaves some of uio_resid does not change whether the request fits. */
  lemma ZeroChunkInside(iovs: seq<Iovec>, n: nat, resid: nat)
    requires n > 0 && AmountNow(n) < resid <= |Addrs(iovs)| && resid < SIZE_T
    ensures ZeroFits(iovs, n, resid) <==>
      ZeroFits(Loop(iovs, AmountNow(n), resid).iovs, n - AmountNow(n), resid - AmountNow(n))
  {
    BoundaryAfter(iovs, AmountNow(n), resid);
    hide Loop, Boundary, Addrs;
  }

  lemma {:induction false} ZeroLoopIdle(iovs: seq<Iovec>, n: nat)
    ensures ZeroLoop(iovs, n, 0) == Outcome(iovs, 0, 0, 0, false)
    decreases n
  {
    if n > 0 {
      LoopDone(iovs, AmountNow(n), 0);
      hide Loop;
      ZeroLoopIdle(iovs, n - AmountNow(n));
    }
  }

  /** The chunk that uses up uio_resid, or would. */
  lemma ZeroChunkLast(iovs: seq<Iovec>, n: nat, resid: nat)
    requires n > 0 && resid <= AmountNow(n) && resid <= |Addrs(iovs)| && resid < SIZE_T && n < SIZE_T
    ensures ZeroExact(iovs, n, resid) <==> ZeroFits(iovs, n, resid)
  {
    var amt := AmountNow(n);
    var r := Loop(iovs, amt, resid);
    assert ZeroFits(iovs, n, resid) <==> Fits(iovs, amt, resid);
    if Fits(iovs, amt, resid) {
      ExactIffFits(iovs, amt, resid);
      assert !r.panicked && r.moved == resid && r.resid == 0;
      hide Loop, Fits, ZeroFits, Addrs;
      ZeroLoopIdle(r.iovs, n - amt);
      ZeroLoopStep(iovs, n, resid);
    } else {
      Overshoots(iovs, amt, resid);
      hide Loop, Fits, ZeroFits, Addrs;
      ZeroLoopStep(iovs, n, resid);
    }
  }

  // ---------------------------------------------------------------- two moves and one

  /** Moving a bytes and then b leaves the counts and the remaining addresses that moving a + b would. */
  lemma MoveTwice(iovs: seq<Iovec>, a: nat, b: nat, resid: nat)
    requires resid <= |Addrs(iovs)| && resid < SIZE_T && a + b < SIZE_T && Fits(iovs, a + b, resid)
    ensures var first := Loop(iovs, a, resid);
      var second, both := Loop(first.iovs, b, first.resid), Loop(iovs, a + b, resid);
      !first.panicked && !second.panicked && !both.panicked && both.moved == first.moved + second.moved &&
      both.resid == second.resid && Addrs(both.iovs) == Addrs(second.iovs)
  {
    hide Loop, Fits, Boundary, Addrs;
    var first := Loop(iovs, a, resid);
    FitsInTwo(iovs, a, b, resid);
    ExactIffFits(iovs, a, resid);
    ExactIffFits(iovs, a + b, resid);
    LoopTakesFront(iovs, a, resid);
    LoopTakesFront(iovs, a + b, resid);
    LoopTakesFront(first.iovs, b, first.resid);
    ExactIffFits(first.iovs, b, first.resid);
  }

  lemma FitsInTwo(iovs: seq<Iovec>, a: nat, b: nat, resid: nat)
    requires resid <= |Addrs(iovs)| && resid < SIZE_T && a + b < SIZE_T && Fits(iovs, a + b, resid)
    ensures Fits(iovs, a, resid) && Fits(Loop(iovs, a, resid).iovs, b, Loop(iovs, a, resid).resid)
  {
    hide Loop, Addrs;
    if a < resid {
      BoundaryAfter(iovs, a, resid);
    } else {
      assert Fits(iovs, a, resid);
      ExactIffFits(iovs, a, resid);
    }
  }

  /** And it stores the same bytes in the same places. */
  lemma StoreTwice(mem: seq<int>, all: seq<nat>, data: seq<int>, m: nat, k: nat)
    requires m + k <= |all| && m + k <= |data|
    ensures Scatter(mem, all[..m + k], data[..m + k]) ==
      Scatter(Scatter(mem, all[..m], data[..m]), all[m..][..k], data[m..][..k])
  {
    assert all[..m + k] == all[..m] + all[m..][..k] && data[..m + k] == data[..m] + data[m..][..k];
    ScatterAppend(mem, all[..m], all[m..][..k], data[..m], data[m..][..k]);
  }
}
