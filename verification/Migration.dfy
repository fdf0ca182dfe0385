/**
 * thread_consider_migration run to its end while no other CPU touches the run queues: who is moved where,
 * and why every victim finds a place.
 */
module Migration {
  import opened Basics
  import opened Scheduler

  // ---------------------------------------------------------------- counting

  function Total(q: seq<seq<Tid>>, n: nat): nat
    requires n <= |q|
  {
    if n == 0 then 0 else Total(q, n - 1) + |q[n - 1]|
  }

  /** Room below share in the queues from i on, leaving out the sender's. */
  function Room(q: seq<seq<Tid>>, share: nat, self: nat, i: nat): nat
    requires i <= |q|
    decreases |q| - i
  {
    if i == |q| then 0
    else (if i == self || |q[i]| >= share then 0 else share - |q[i]|) + Room(q, share, self, i + 1)
  }

  function TotalFrom(q: seq<seq<Tid>>, i: nat): nat
    requires i <= |q|
    decreases |q| - i
  {
    if i == |q| then 0 else |q[i]| + TotalFrom(q, i + 1)
  }

  function Times(n: int, share: int): int { n * share }

  /** Counting queue by queue counts every queued thread. */
  lemma {:induction false} TotalCounts(q: seq<seq<Tid>>, i: nat)
    requires i <= |q|
    ensures Total(q, i) == |All(q, i)|
  {
    if i > 0 {
      TotalCounts(q, i - 1);
    }
  }

  lemma {:induction false} TotalSplit(q: seq<seq<Tid>>, i: nat)
    requires i <= |q|
    ensures Total(q, i) + TotalFrom(q, i) == Total(q, |q|)
    decreases |q| - i
  {
    if i < |q| {
      TotalSplit(q, i + 1);
    }
  }

  lemma {:induction false} RoomBound(q: seq<seq<Tid>>, share: nat, self: nat, i: nat)
    requires i <= |q| && self < |q|
    ensures Room(q, share, self, i) >=
      Times(|q| - i, share) - TotalFrom(q, i) - (if i <= self then share - |q[self]| else 0)
    decreases |q| - i
  {
    if i < |q| {
      RoomBound(q, share, self, i + 1);
      assert Times(|q| - i, share) == share + Times(|q| - i - 1, share);
    }
  }

  /** The other queues have room for everything the sender has above its share. */
  lemma RoomEnough(q: seq<seq<Tid>>, self: nat)
    requires self < |q|
    ensures var share := DivRoundUp(Total(q, |q|), |q|); Room(q, share, self, 0) >= |q[self]| - share
  {
    var share := DivRoundUp(Total(q, |q|), |q|);
    RoundUpIsShare(Total(q, |q|), |q|);
    assert Times(|q|, share) == |q| * share;
    TotalSplit(q, 0);
    RoomBound(q, share, self, 0);
  }

  // ---------------------------------------------------------------- who goes where

  /** l without the thread x. */
  function Minus(l: seq<Tid>, x: Tid): seq<Tid> {
    if l == [] then []
    else if l[|l| - 1] == x then Minus(l[..|l| - 1], x)
    else Minus(l[..|l| - 1], x) + [l[|l| - 1]]
  }

  lemma MinusSnoc(l: seq<Tid>, y: Tid, x: Tid)
    ensures Minus(l + [y], x) == if y == x then Minus(l, x) else Minus(l, x) + [y]
  {
    assert (l + [y])[..|l|] == l;
  }

  lemma {:induction false} MinusAbsent(l: seq<Tid>, x: Tid)
    requires x !in l
    ensures Minus(l, x) == l
  {
    if l != [] {
      MinusAbsent(l[..|l| - 1], x);
      assert l == l[..|l| - 1] + [l[|l| - 1]];
    }
  }

  lemma {:induction false} MinusOnce(l: seq<Tid>, x: Tid)
    requires x in l && Distinct(l)
    ensures multiset(Minus(l, x)) + multiset{x} == multiset(l)
  {
    var t := l[..|l| - 1];
    assert l == t + [l[|l| - 1]];
    if l[|l| - 1] == x {
      MinusAbsent(t, x);
    } else {
      MinusOnce(t, x);
    }
  }

  lemma {:induction false} MinusConcat(a: seq<Tid>, b: seq<Tid>, x: Tid)
    ensures Minus(a + b, x) == Minus(a, x) + Minus(b, x)
  {
    if b == [] {
      assert a + b == a && Minus(b, x) == [];
    } else {
      hide Minus;
      var b', y := b[..|b| - 1], b[|b| - 1];
      MinusConcat(a, b', x);
      assert b == b' + [y] && a + b == (a + b') + [y];
      MinusSnoc(a + b', y, x);
      MinusSnoc(b', y, x);
      assert Minus(a, x) + (Minus(b', x) + [y]) == (Minus(a, x) + Minus(b', x)) + [y];
    }
  }

  lemma {:induction false} MinusMembers(l: seq<Tid>, x: Tid)
    ensures forall t :: t in Minus(l, x) <==> t in l && t != x
    ensures Distinct(l) ==> Distinct(Minus(l, x))
  {
    if l != [] {
      var l' := l[..|l| - 1];
      assert l == l' + [l[|l| - 1]];
      MinusMembers(l', x);
      assert Distinct(l) ==> Distinct(l') && l[|l| - 1] !in l';
    }
  }

  /** What queue i has gained at its end. */
  function Gain(q0: seq<seq<Tid>>, q: seq<seq<Tid>>, i: nat): seq<Tid> {
    if i < |q0| && i < |q| && |q0[i]| <= |q[i]| then q[i][|q0[i]|..] else []
  }

  /** What the queues below n have gained, in order, leaving out the sender's. */
  function Gained(q0: seq<seq<Tid>>, q: seq<seq<Tid>>, self: nat, n: nat): seq<Tid> {
    if n == 0 then [] else Gained(q0, q, self, n - 1) + (if n - 1 == self then [] else Gain(q0, q, n - 1))
  }

  lemma {:induction false} GainedFrame(q0: seq<seq<Tid>>, q: seq<seq<Tid>>, q': seq<seq<Tid>>, self: nat, n: nat)
    requires forall i :: 0 <= i < n && i != self ==> Gain(q0, q', i) == Gain(q0, q, i)
    ensures Gained(q0, q', self, n) == Gained(q0, q, self, n)
  {
    hide Gain;
    if n > 0 {
      GainedFrame(q0, q, q', self, n - 1);
    }
  }

  /** All threads in the queues below n, with their number of occurrences. */
  function All(q: seq<seq<Tid>>, n: nat): multiset<Tid>
    requires n <= |q|
  {
    if n == 0 then multiset{} else All(q, n - 1) + multiset(q[n - 1])
  }

  /** The sender's own queue, once the count has passed it. */
  function Own(q: seq<seq<Tid>>, self: nat, n: nat): multiset<Tid>
    requires n <= |q|
  {
    if self < n then multiset(q[self]) else multiset{}
  }

  lemma {:induction false} AllGained(q0: seq<seq<Tid>>, q: seq<seq<Tid>>, self: nat, n: nat)
    requires n <= |q0| && n <= |q|
    requires forall i :: 0 <= i < n && i != self ==> q0[i] <= q[i]
    ensures Conserved(q0, q, self, n)
  {
    hide Conserved, All, Gained, Own, Gain;
    if n == 0 {
      AllOfNone(q0, q, self);
    } else {
      AllGained(q0, q, self, n - 1);
      if n - 1 != self {
        OtherGained(q0, q, self, n);
      } else {
        OwnGained(q0, q, self, n);
      }
    }
  }

  ghost predicate Conserved(q0: seq<seq<Tid>>, q: seq<seq<Tid>>, self: nat, n: nat)
    requires n <= |q0| && n <= |q|
  {
    All(q, n) + Own(q0, self, n) == All(q0, n) + Own(q, self, n) + multiset(Gained(q0, q, self, n))
  }

  lemma OtherGained(q0: seq<seq<Tid>>, q: seq<seq<Tid>>, self: nat, n: nat)
    requires 0 < n <= |q0| && n <= |q| && n - 1 != self && q0[n - 1] <= q[n - 1] && Conserved(q0, q, self, n - 1)
    ensures Conserved(q0, q, self, n)
  {
    GainedStep(q0, q, self, n);
    var a, b, d := All(q, n - 1), All(q0, n - 1), multiset(Gained(q0, q, self, n - 1));
    var p, c := Own(q0, self, n - 1), Own(q, self, n - 1);
    var f, g := multiset(q0[n - 1]), multiset(Gain(q0, q, n - 1));
    Regroup(a, p, b, c, d, f, g);
    assert All(q, n) == a + (f + g) && Own(q0, self, n) == p;
    assert All(q0, n) == b + f && Own(q, self, n) == c;
    assert multiset(Gained(q0, q, self, n)) == d + g;
  }

  lemma OwnGained(q0: seq<seq<Tid>>, q: seq<seq<Tid>>, self: nat, n: nat)
    requires 0 < n <= |q0| && n <= |q| && n - 1 == self && Conserved(q0, q, self, n - 1)
    ensures Conserved(q0, q, self, n)
  {
    var a, b, g := All(q, n - 1), All(q0, n - 1), Gained(q0, q, self, n - 1);
    var e, f := multiset(q[n - 1]), multiset(q0[n - 1]);
    assert Gained(q0, q, self, n) == g + [] == g;
    assert Own(q0, self, n - 1) == multiset{} && Own(q, self, n - 1) == multiset{};
    hide Gained, Own, All, Gain;
    RegroupOwn(a, b, multiset(g), e, f);
  }

  lemma AllOfNone(q0: seq<seq<Tid>>, q: seq<seq<Tid>>, self: nat)
    ensures Conserved(q0, q, self, 0)
  {
  }

  lemma GainedStep(q0: seq<seq<Tid>>, q: seq<seq<Tid>>, self: nat, n: nat)
    requires 0 < n <= |q0| && n <= |q| && n - 1 != self && q0[n - 1] <= q[n - 1]
    ensures multiset(Gained(q0, q, self, n)) == multiset(Gained(q0, q, self, n - 1)) + multiset(Gain(q0, q, n - 1))
    ensures multiset(q[n - 1]) == multiset(q0[n - 1]) + multiset(Gain(q0, q, n - 1))
  {
    assert q[n - 1] == q0[n - 1] + Gain(q0, q, n - 1);
  }

  lemma RegroupOwn(a: multiset<Tid>, b: multiset<Tid>, d: multiset<Tid>, e: multiset<Tid>, f: multiset<Tid>)
    requires a + multiset{} == b + multiset{} + d
    ensures (a + e) + f == (b + f) + e + d
  {
    assert a + multiset{} == a && b + multiset{} == b;
  }

  lemma Regroup(a: multiset<Tid>, p: multiset<Tid>, b: multiset<Tid>, c: multiset<Tid>, d: multiset<Tid>,
                e: multiset<Tid>, f: multiset<Tid>)
    requires a + p == b + c + d
    ensures a + (e + f) + p == b + e + c + (d + f)
  {
    assert a + (e + f) + p == (a + p) + (e + f);
  }

  /** The victims still in hand after the first k have been looked at: the rest, then cur if it has come up. */
  function Rest(v: seq<Tid>, cur: Tid, k: nat): seq<Tid>
    requires k <= |v|
  {
    v[k..] + if cur in v[..k] then [cur] else []
  }

  lemma RestStep(v: seq<Tid>, cur: Tid, k: nat)
    requires k < |v| && Distinct(v)
    ensures Rest(v, cur, k) != [] && Rest(v, cur, k)[0] == v[k]
    ensures Rest(v, cur, k + 1) == if v[k] == cur then Rest(v, cur, k)[1..] + [cur] else Rest(v, cur, k)[1..]
  {
    assert v[..k + 1] == v[..k] + [v[k]];
    assert forall j :: 0 <= j < k ==> v[j] != v[k];
  }

  lemma MinusStep(v: seq<Tid>, cur: Tid, k0: nat, k: nat)
    requires k0 <= k < |v|
    ensures Minus(v[k0..k + 1], cur) == if v[k] == cur then Minus(v[k0..k], cur) else Minus(v[k0..k], cur) + [v[k]]
  {
    assert v[k0..k + 1] == v[k0..k] + [v[k]];
    MinusSnoc(v[k0..k], v[k], cur);
  }

  class RunQueues {
    var queue: seq<seq<Tid>>
    var tcpu: map<Tid, nat>

    /** Every queued thread is queued once, on its own CPU. */
    ghost predicate Valid()
      reads this
    {
      Homes(queue, tcpu)
    }

    constructor (q: seq<seq<Tid>>, home: map<Tid, nat>)
      ensures queue == q && tcpu == home
    {
      queue, tcpu := q, home;
    }

    /** The first loop: the length of the caller's queue and of all queues together. */
    method Count(self: nat) returns (my: nat, total: nat)
      requires self < |queue|
      ensures my == |queue[self]| && total == Total(queue, |queue|)
    {
      my, total := 0, 0;
      var i := 0;
      while i < |queue|
        invariant 0 <= i <= |queue| && total == Total(queue, i) && (self < i ==> my == |queue[self]|)
      {
        total := total + |queue[i]|;
        if i == self {
          my := |queue[i]|;
        }
        i := i + 1;
      }
    }

    /** The second loop: send threads leave the tail of the caller's queue, keeping their order. */
    method TakeVictims(self: nat, send: nat) returns (victims: seq<Tid>)
      requires self < |queue| && send <= |queue[self]|
      modifies this`queue
      ensures queue == old(queue)[self := old(queue)[self][..|old(queue)[self]| - send]]
      ensures victims == old(queue)[self][|old(queue)[self]| - send..]
    {
      victims := [];
      var i := 0;
      ghost var q0, l := queue, queue[self];
      assert l[..|l|] == l && q0[self := l] == q0;
      while i < send
        invariant 0 <= i <= send && |queue| == |q0|
        invariant queue == q0[self := l[..|l| - i]] && victims == l[|l| - i..]
      {
        assert l[..|l| - i][..|l| - i - 1] == l[..|l| - i - 1];
        var t := queue[self][|queue[self]| - 1];
        queue := queue[self := queue[self][..|queue[self]| - 1]];
        victims := [t] + victims;
        i := i + 1;
      }
    }

    /**
     * One receiver's locked section: it takes victims while it has room.  The victims in hand are what is left of v,
     * of which k have been looked at.
     */
    method FillReceiver(c: nat, share: nat, cur: Tid, vs: seq<Tid>, toSend: nat, ghost v: seq<Tid>)
      returns (victims: seq<Tid>, left: nat)
      requires c < |queue| && toSend <= |v| && Distinct(v) && vs == Rest(v, cur, |v| - toSend)
      modifies this
      ensures left <= toSend && victims == Rest(v, cur, |v| - left)
      ensures queue == old(queue)[c := old(queue)[c] + Minus(v[|v| - toSend..|v| - left], cur)]
      ensures left == 0 || |queue[c]| >= share
      ensures |queue[c]| <= share || queue[c] == old(queue)[c]
      ensures forall t :: t in tcpu <==> t in old(tcpu) || t in Minus(v[|v| - toSend..|v| - left], cur)
      ensures forall t :: t in tcpu ==>
        tcpu[t] == if t in Minus(v[|v| - toSend..|v| - left], cur) then c else old(tcpu)[t]
    {
      hide Minus, Rest;
      victims, left := vs, toSend;
      ghost var k0, gain := |v| - toSend, [];
      assert v[k0..k0] == [] && Minus([], cur) == [] by { MinusAbsent([], cur); }
      assert queue[c] + [] == queue[c];
      while |queue[c]| < share && left > 0
        invariant left <= toSend && victims == Rest(v, cur, |v| - left)
        invariant gain == Minus(v[k0..|v| - left], cur) && c < |old(queue)|
        invariant queue == old(queue)[c := old(queue)[c] + gain]
        invariant |queue[c]| <= share || queue[c] == old(queue)[c]
        invariant forall t :: t in tcpu <==> t in old(tcpu) || t in gain
        invariant forall t :: t in tcpu ==> tcpu[t] == if t in gain then c else old(tcpu)[t]
        decreases left
      {
        ghost var k := |v| - left;
        RestStep(v, cur, k);
        MinusStep(v, cur, k0, k);
        var t := victims[0];
        victims := victims[1..];
        if t == cur {
          victims := victims + [t];
          left := left - 1;
        } else {
          tcpu := tcpu[t := c];
          queue := queue[c := queue[c] + [t]];
          assert old(queue)[c] + (gain + [t]) == (old(queue)[c] + gain) + [t];
          gain := gain + [t];
          left := left - 1;
        }
      }
    }

    /** One receiver's turn keeps the placing invariant. */
    method PlaceInto(i: nat, self: nat, share: nat, cur: Tid, vs: seq<Tid>, toSend: nat,
                     ghost q0: seq<seq<Tid>>, ghost v: seq<Tid>)
      returns (victims: seq<Tid>, left: nat)
      requires PlacingUpTo(queue, tcpu, q0, self, share, cur, v, toSend, i) && i < |q0| && i != self
      requires vs == Rest(v, cur, |v| - toSend)
      modifies this
      ensures left <= |v| && victims == Rest(v, cur, |v| - left)
      ensures PlacingUpTo(queue, tcpu, q0, self, share, cur, v, left, i + 1)
    {
      ghost var queue0, tcpu0 := queue, tcpu;
      victims, left := FillReceiver(i, share, cur, vs, toSend, v);
      ghost var gain := Minus(v[|v| - toSend..|v| - left], cur);
      Looked(q0, self, share, cur, v, toSend, left, i, queue0, tcpu0, queue, tcpu, gain);
    }

    /** The loops over the receivers, which stop when nothing is left to send. */
    method PlaceAll(self: nat, share: nat, cur: Tid, vs: seq<Tid>, ghost q0: seq<seq<Tid>>) returns (victims: seq<Tid>)
      requires PlacingUpTo(queue, tcpu, q0, self, share, cur, vs, |vs|, 0)
      modifies this
      ensures victims == if cur in vs then [cur] else []
      ensures |queue| == |q0| && Homes(queue, tcpu) && Receivers(queue, q0, self, share, |q0|)
      ensures cur in vs ==> cur in tcpu && tcpu[cur] == self && cur !in queue[self]
      ensures Gained(q0, queue, self, |q0|) == Minus(vs, cur) && InOrder(q0, queue, self, share)
    {
      hide Homes, Minus, Gained, Distinct, InHand, Receivers;
      victims := vs;
      var left: nat := |vs|;
      var i: nat := 0;
      assert Rest(vs, cur, 0) == vs;
      while i < |queue| && left > 0
        invariant i <= |q0| == |queue| && left <= |vs| && victims == Rest(vs, cur, |vs| - left)
        invariant PlacingUpTo(queue, tcpu, q0, self, share, cur, vs, left, i)
        decreases |q0| - i
      {
        if i != self {
          victims, left := PlaceInto(i, self, share, cur, victims, left, q0, vs);
        } else {
          SelfSkipped(queue, tcpu, q0, self, share, cur, vs, left);
        }
        i := i + 1;
      }
      assert left == 0 && vs[..|vs|] == vs && vs[|vs|..] == [];
      AllPlaced(queue, tcpu, q0, self, share, cur, vs, i);
    }

    /** The last loop: victims nobody took go back to the end of the caller's queue. */
    method PutBack(self: nat, victims: seq<Tid>)
      requires self < |queue|
      modifies this`queue
      ensures queue == old(queue)[self := old(queue)[self] + victims]
    {
      var vs := victims;
      ghost var q0 := queue;
      assert q0[self] + victims[..0] == q0[self];
      while vs != []
        invariant |vs| <= |victims| && vs == victims[|victims| - |vs|..] && |queue| == |q0|
        invariant queue == q0[self := q0[self] + victims[..|victims| - |vs|]]
        decreases |vs|
      {
        ghost var k := |victims| - |vs|;
        assert victims[..k + 1] == victims[..k] + [vs[0]];
        assert q0[self] + victims[..k + 1] == (q0[self] + victims[..k]) + [vs[0]];
        queue := queue[self := queue[self] + [vs[0]]];
        vs := vs[1..];
      }
      assert victims[..|victims|] == victims;
    }

    /**
     * thread_consider_migration.  A CPU with fewer than its share does nothing; another keeps exactly its share, or one
     * more when its current thread was among the victims, and every other victim has gone to a CPU with room.
     */
    method ConsiderMigration(self: nat, cur: Tid) returns (ghost share: nat)
      requires Valid() && self < |queue|
      modifies this
      ensures Valid() && |queue| == |old(queue)|
      ensures IsShare(share, |All(old(queue), |old(queue)|)|, |old(queue)|)
      ensures |old(queue)[self]| < share ==> queue == old(queue) && tcpu == old(tcpu)
      ensures |old(queue)[self]| >= share ==> Migrated(old(queue), queue, self, share, cur)
      ensures All(queue, |queue|) == All(old(queue), |old(queue)|)
    {
      hide Homes, InHand, Minus, Gained, Gain, All, Room, Total, DivRoundUp, Distinct, Receivers, Migrated, IsShare,
           InOrder;
      ghost var q0 := queue;
      assert Distinct(q0[self]) by { OwnDistinct(q0, tcpu, self); }
      var my, total := Count(self);
      var oneShare := DivRoundUp(total, |queue|);
      share := oneShare;
      RoundUpIsShare(total, |queue|);
      TotalCounts(queue, |queue|);
      if my < oneShare {
        return;
      }
      var victims := TakeVictims(self, my - oneShare);
      ghost var v, q1 := victims, queue;
      TakenOk(q0, tcpu, self, share, cur);
      victims := PlaceAll(self, oneShare, cur, victims, q1);
      ghost var q2 := queue;
      PutBack(self, victims);
      assert q2[self] + [] == q2[self];
      Returned(q0, q2, queue, tcpu, self, share, cur);
    }
  }

  /** A queue grows only when the receivers before it have their share. */
  ghost predicate InOrder(q0: seq<seq<Tid>>, q: seq<seq<Tid>>, self: nat, share: nat) {
    forall j, k :: 0 <= j < k < |q0| && k < |q| && j != self && k != self && q[k] != q0[k] ==> |q[j]| >= share
  }

  /** As long as victims are left, the receivers below i have their share. */
  ghost predicate FilledTo(q: seq<seq<Tid>>, self: nat, share: nat, i: nat, left: nat) {
    left > 0 ==> forall j :: 0 <= j < i && j < |q| && j != self ==> |q[j]| >= share
  }

  /** The sender's queue and the receivers' after a migration. */
  ghost predicate Migrated(q0: seq<seq<Tid>>, q: seq<seq<Tid>>, self: nat, share: nat, cur: Tid)
    requires self < |q0| && share <= |q0[self]|
  {
    var v := q0[self][share..];
    |q| == |q0| && q[self] == q0[self][..share] + (if cur in v then [cur] else []) &&
    Gained(q0, q, self, |q0|) == Minus(v, cur) && InOrder(q0, q, self, share) &&
    forall j :: 0 <= j < |q0| && j != self ==> q0[j] <= q[j] && (|q[j]| <= share || q[j] == q0[j])
  }

  /** Every queued thread is queued once, on its own CPU. */
  ghost predicate Homes(queue: seq<seq<Tid>>, tcpu: map<Tid, nat>) {
    (forall c :: 0 <= c < |queue| ==> Distinct(queue[c])) &&
    forall c, t :: 0 <= c < |queue| && t in queue[c] ==> t in tcpu && tcpu[t] == c
  }

  /** The receivers have at most grown, none of them past share, and the others are as they were. */
  ghost predicate Receivers(queue: seq<seq<Tid>>, q0: seq<seq<Tid>>, self: nat, share: nat, i: nat) {
    |queue| == |q0| &&
    (forall j :: 0 <= j < |q0| && (i <= j || j == self) ==> queue[j] == q0[j]) &&
    forall j :: 0 <= j < |q0| && j != self ==> q0[j] <= queue[j] && (|queue[j]| <= share || queue[j] == q0[j])
  }

  /** The victims not yet looked at, and cur, still belong to the sender, and none is on its queue. */
  ghost predicate InHand(queue: seq<seq<Tid>>, tcpu: map<Tid, nat>, self: nat, cur: Tid, v: seq<Tid>, left: nat)
    requires self < |queue| && left <= |v|
  {
    Distinct(v) && (forall t :: t in v ==> t !in queue[self]) &&
    forall t :: t in v[|v| - left..] || (t in v && t == cur) ==> t in tcpu && tcpu[t] == self
  }

  /** What the placing loop keeps: all but left of v have been looked at, and the receivers below i are done with. */
  ghost predicate PlacingUpTo(queue: seq<seq<Tid>>, tcpu: map<Tid, nat>, q0: seq<seq<Tid>>, self: nat, share: nat,
                              cur: Tid, v: seq<Tid>, left: nat, i: nat) {
    self < |queue| == |q0| && i <= |q0| && left <= |v| && Receivers(queue, q0, self, share, i) && Homes(queue, tcpu) &&
    InHand(queue, tcpu, self, cur, v, left) && Gained(q0, queue, self, i) == Minus(v[..|v| - left], cur) &&
    left <= Room(q0, share, self, i) && InOrder(q0, queue, self, share) && FilledTo(queue, self, share, i, left)
  }

  lemma GainHomes(queue: seq<seq<Tid>>, tcpu: map<Tid, nat>, i: nat, self: nat, gain: seq<Tid>,
                  queue': seq<seq<Tid>>, tcpu': map<Tid, nat>)
    requires Homes(queue, tcpu) && i < |queue| && self < |queue| && i != self && Distinct(gain)
    requires forall t :: t in gain ==> t in tcpu && tcpu[t] == self && t !in queue[self]
    requires queue' == queue[i := queue[i] + gain]
    requires forall t :: t in tcpu' <==> t in tcpu || t in gain
    requires forall t :: t in tcpu' ==> tcpu'[t] == if t in gain then i else tcpu[t]
    ensures Homes(queue', tcpu')
  {
    assert forall t :: t in gain ==> t !in queue[i];
    assert Distinct(queue[i]);
    DistinctConcat(queue[i], gain);
  }

  lemma DistinctConcat(a: seq<Tid>, b: seq<Tid>)
    requires Distinct(a) && Distinct(b) && forall t :: t in b ==> t !in a
    ensures Distinct(a + b)
  {
    forall x, y | 0 <= x < y < |a + b|
      ensures (a + b)[x] != (a + b)[y]
    {
      if x < |a| <= y {
        assert b[y - |a|] in b;
      }
    }
  }

  /** The threads a receiver has gained are victims that were still in hand. */
  lemma GainFromHand(queue: seq<seq<Tid>>, tcpu: map<Tid, nat>, self: nat, cur: Tid, v: seq<Tid>, toSend: nat,
                     left: nat)
    requires self < |queue| && left <= toSend <= |v| && InHand(queue, tcpu, self, cur, v, toSend)
    ensures var gain := Minus(v[|v| - toSend..|v| - left], cur);
      Distinct(gain) && cur !in gain &&
      (forall t :: t in gain ==> t in tcpu && tcpu[t] == self && t in v && t !in queue[self]) &&
      forall t :: t in v[|v| - left..] ==> t !in gain && t in v[|v| - toSend..]
  {
    var a, b := |v| - toSend, |v| - left;
    MinusMembers(v[a..b], cur);
    assert Distinct(v[a..b]);
    assert v[a..] == v[a..b] + v[b..];
    forall t | t in v[a..b]
      ensures t in v && t !in v[b..]
    {
    }
  }

  lemma Looked(q0: seq<seq<Tid>>, self: nat, share: nat, cur: Tid, v: seq<Tid>, toSend: nat, left: nat, i: nat,
               queue: seq<seq<Tid>>, tcpu: map<Tid, nat>, queue': seq<seq<Tid>>, tcpu': map<Tid, nat>, gain: seq<Tid>)
    requires PlacingUpTo(queue, tcpu, q0, self, share, cur, v, toSend, i) && i < |q0| && i != self && left <= toSend
    requires gain == Minus(v[|v| - toSend..|v| - left], cur) && queue' == queue[i := queue[i] + gain]
    requires left == 0 || |queue'[i]| >= share
    requires |queue'[i]| <= share || queue'[i] == queue[i]
    requires forall t :: t in tcpu' <==> t in tcpu || t in gain
    requires forall t :: t in tcpu' ==> tcpu'[t] == if t in gain then i else tcpu[t]
    ensures PlacingUpTo(queue', tcpu', q0, self, share, cur, v, left, i + 1)
  {
    hide Minus, Gained, Room, Gain;
    GainFromHand(queue, tcpu, self, cur, v, toSend, left);
    GainHomes(queue, tcpu, i, self, gain, queue', tcpu');
    LookedGained(q0, self, cur, v, toSend, left, i, queue, queue', gain);
    MinusLength(v[|v| - toSend..|v| - left], cur);
    LookedRoom(q0, share, self, i, toSend, left, |gain|);
    LookedInHand(queue, tcpu, queue', tcpu', i, self, cur, v, toSend, left, gain);
    LookedInOrder(q0, self, share, toSend, left, i, queue, queue');
    hide InOrder, FilledTo;
    hide Homes, Minus, Gained, Distinct, Room, InHand;
    assert Receivers(queue', q0, self, share, i + 1);
  }

  lemma LookedInOrder(q0: seq<seq<Tid>>, self: nat, share: nat, toSend: nat, left: nat, i: nat,
                      queue: seq<seq<Tid>>, queue': seq<seq<Tid>>)
    requires InOrder(q0, queue, self, share) && FilledTo(queue, self, share, i, toSend) && left <= toSend
    requires i < |q0| == |queue| == |queue'| && queue' == queue[i := queue'[i]] && |queue'[i]| >= |queue[i]|
    requires forall j :: i <= j < |q0| && j != self ==> queue[j] == q0[j]
    requires left == 0 || |queue'[i]| >= share
    requires toSend == 0 ==> queue'[i] == queue[i]
    ensures InOrder(q0, queue', self, share) && FilledTo(queue', self, share, i + 1, left)
  {
  }

  /** What a receiver took is covered by its room, so the rest still fits behind it. */
  lemma LookedRoom(q0: seq<seq<Tid>>, share: nat, self: nat, i: nat, toSend: nat, left: nat, gained: nat)
    requires i < |q0| && i != self && toSend <= Room(q0, share, self, i) && gained <= toSend - left
    requires left == 0 || |q0[i]| + gained >= share
    ensures left <= Room(q0, share, self, i + 1)
  {
  }

  lemma LookedInHand(queue: seq<seq<Tid>>, tcpu: map<Tid, nat>, queue': seq<seq<Tid>>, tcpu': map<Tid, nat>, i: nat,
                     self: nat, cur: Tid, v: seq<Tid>, toSend: nat, left: nat, gain: seq<Tid>)
    requires self < |queue| == |queue'| && left <= toSend <= |v| && InHand(queue, tcpu, self, cur, v, toSend)
    requires queue'[self] == queue[self] && gain == Minus(v[|v| - toSend..|v| - left], cur)
    requires forall t :: t in tcpu' <==> t in tcpu || t in gain
    requires forall t :: t in tcpu' ==> tcpu'[t] == if t in gain then i else tcpu[t]
    ensures InHand(queue', tcpu', self, cur, v, left)
  {
    GainFromHand(queue, tcpu, self, cur, v, toSend, left);
    hide Minus, Distinct;
  }

  lemma {:induction false} MinusLength(l: seq<Tid>, x: Tid)
    ensures |Minus(l, x)| <= |l|
  {
    if l != [] {
      MinusLength(l[..|l| - 1], x);
    }
  }

  lemma LookedGained(q0: seq<seq<Tid>>, self: nat, cur: Tid, v: seq<Tid>, toSend: nat, left: nat, i: nat,
                     queue: seq<seq<Tid>>, queue': seq<seq<Tid>>, gain: seq<Tid>)
    requires i < |q0| == |queue| && i != self && left <= toSend <= |v| && queue[i] == q0[i]
    requires gain == Minus(v[|v| - toSend..|v| - left], cur) && queue' == queue[i := queue[i] + gain]
    requires Gained(q0, queue, self, i) == Minus(v[..|v| - toSend], cur)
    ensures Gained(q0, queue', self, i + 1) == Minus(v[..|v| - left], cur)
  {
    hide Minus;
    var a, b := |v| - toSend, |v| - left;
    assert v[..b] == v[..a] + v[a..b];
    MinusConcat(v[..a], v[a..b], cur);
    GainOfAppended(q0, queue', i, gain);
    assert forall j :: 0 <= j < i ==> Gain(q0, queue', j) == Gain(q0, queue, j);
    GainedFrame(q0, queue, queue', self, i);
    assert Gained(q0, queue', self, i + 1) == Gained(q0, queue', self, i) + Gain(q0, queue', i);
    hide Gained, Gain;
  }

  lemma GainOfAppended(q0: seq<seq<Tid>>, q: seq<seq<Tid>>, i: nat, gain: seq<Tid>)
    requires i < |q0| && i < |q| && q[i] == q0[i] + gain
    ensures Gain(q0, q, i) == gain
  {
  }

  /** When nothing is left in hand, the receivers not reached have gained nothing. */
  lemma AllPlaced(queue: seq<seq<Tid>>, tcpu: map<Tid, nat>, q0: seq<seq<Tid>>, self: nat, share: nat, cur: Tid,
                  v: seq<Tid>, i: nat)
    requires PlacingUpTo(queue, tcpu, q0, self, share, cur, v, 0, i) && v[..|v|] == v
    ensures Homes(queue, tcpu) && Receivers(queue, q0, self, share, |q0|) && self < |queue|
    ensures cur in v ==> cur in tcpu && tcpu[cur] == self && cur !in queue[self]
    ensures Gained(q0, queue, self, |q0|) == Minus(v, cur) && InOrder(q0, queue, self, share)
  {
    hide Homes, Minus, Gained, Distinct;
    GainedRest(q0, queue, self, i, |q0|);
  }

  lemma SelfSkipped(queue: seq<seq<Tid>>, tcpu: map<Tid, nat>, q0: seq<seq<Tid>>, self: nat, share: nat, cur: Tid,
                    v: seq<Tid>, left: nat)
    requires PlacingUpTo(queue, tcpu, q0, self, share, cur, v, left, self)
    ensures PlacingUpTo(queue, tcpu, q0, self, share, cur, v, left, self + 1)
  {
    hide Homes, InHand, Minus;
    assert Gained(q0, queue, self, self) + [] == Gained(q0, queue, self, self);
  }

  lemma {:induction false} GainedRest(q0: seq<seq<Tid>>, q: seq<seq<Tid>>, self: nat, i: nat, n: nat)
    requires i <= n && forall j :: i <= j < n && j != self ==> Gain(q0, q, j) == []
    ensures Gained(q0, q, self, n) == Gained(q0, q, self, i)
  {
    hide Gain;
    if i < n {
      GainedRest(q0, q, self, i, n - 1);
      assert Gained(q0, q, self, n - 1) + [] == Gained(q0, q, self, n - 1);
    }
  }

  /** After the victims have left the sender's queue the placing loop's invariant holds. */
  lemma TakenOk(q0: seq<seq<Tid>>, tcpu: map<Tid, nat>, self: nat, share: nat, cur: Tid)
    requires Homes(q0, tcpu) && self < |q0| && share == DivRoundUp(Total(q0, |q0|), |q0|) <= |q0[self]|
    ensures var q1, v := q0[self := q0[self][..share]], q0[self][share..];
      PlacingUpTo(q1, tcpu, q1, self, share, cur, v, |v|, 0)
  {
    var q1, l := q0[self := q0[self][..share]], q0[self];
    var v := l[share..];
    RoomEnough(q0, self);
    RoomFrame(q0, q1, share, self, 0);
    assert Distinct(l) && l == l[..share] + v;
    assert v[|v| - |v|..] == v && v[..|v| - |v|] == [];
    hide DivRoundUp;
    forall t | t in v
      ensures t !in l[..share]
    {
      var k :| 0 <= k < |v| && v[k] == t;
      assert l[share + k] == t;
    }
    assert Distinct(v) && Distinct(l[..share]);
    assert Homes(q1, tcpu) by {
      forall c, t | 0 <= c < |q1| && t in q1[c]
        ensures t in tcpu && tcpu[t] == c
      {
        assert t in q0[c];
      }
    }
  }

  lemma {:induction false} RoomFrame(q: seq<seq<Tid>>, q': seq<seq<Tid>>, share: nat, self: nat, i: nat)
    requires i <= |q| == |q'| && forall j :: i <= j < |q| && j != self ==> |q'[j]| == |q[j]|
    ensures Room(q', share, self, i) == Room(q, share, self, i)
    decreases |q| - i
  {
    if i < |q| {
      RoomFrame(q, q', share, self, i + 1);
    }
  }

  /** The leftover goes back, and nothing has been lost or made up. */
  lemma Returned(q0: seq<seq<Tid>>, q2: seq<seq<Tid>>, q: seq<seq<Tid>>, tcpu: map<Tid, nat>, self: nat, share: nat,
                 cur: Tid)
    requires self < |q0| == |q2| && share <= |q0[self]| && Distinct(q0[self])
    requires Homes(q2, tcpu) && Receivers(q2, q0[self := q0[self][..share]], self, share, |q0|)
    requires Gained(q0[self := q0[self][..share]], q2, self, |q0|) == Minus(q0[self][share..], cur)
    requires InOrder(q0[self := q0[self][..share]], q2, self, share)
    requires cur in q0[self][share..] ==> cur in tcpu && tcpu[cur] == self && cur !in q2[self]
    requires q == if cur in q0[self][share..] then q2[self := q2[self] + [cur]] else q2
    ensures Homes(q, tcpu) && Migrated(q0, q, self, share, cur) && All(q, |q|) == All(q0, |q0|)
  {
    hide Gained, Minus, Gain, Homes, All, Conserved, Distinct, Receivers, Migrated, InOrder;
    ReturnedHomes(q2, q, tcpu, self, cur, cur in q0[self][share..]);
    ReturnedMigrated(q0, q2, q, self, share, cur);
    MigratedConserves(q0, q, self, share, cur);
  }

  lemma ReturnedMigrated(q0: seq<seq<Tid>>, q2: seq<seq<Tid>>, q: seq<seq<Tid>>, self: nat, share: nat, cur: Tid)
    requires self < |q0| && share <= |q0[self]| && Receivers(q2, q0[self := q0[self][..share]], self, share, |q0|)
    requires Gained(q0[self := q0[self][..share]], q2, self, |q0|) == Minus(q0[self][share..], cur)
    requires InOrder(q0[self := q0[self][..share]], q2, self, share)
    requires q == if cur in q0[self][share..] then q2[self := q2[self] + [cur]] else q2
    ensures Migrated(q0, q, self, share, cur)
  {
    hide Minus, Gained;
    assert q2[self] == q0[self][..share] && q2[self] + [] == q2[self];
    GainedSame(q0, q0[self := q0[self][..share]], q2, q, self, |q0|);
  }

  lemma MigratedConserves(q0: seq<seq<Tid>>, q: seq<seq<Tid>>, self: nat, share: nat, cur: Tid)
    requires self < |q0| && share <= |q0[self]| && Distinct(q0[self]) && Migrated(q0, q, self, share, cur)
    ensures |q| == |q0| && All(q, |q|) == All(q0, |q0|)
  {
    hide Gained, Minus, Gain, All, Conserved, Distinct;
    AllGained(q0, q, self, |q0|);
    AllConserved(q0, q, self, share, cur);
  }

  lemma OwnDistinct(queue: seq<seq<Tid>>, tcpu: map<Tid, nat>, c: nat)
    requires Homes(queue, tcpu) && c < |queue|
    ensures Distinct(queue[c])
  {
  }

  lemma ReturnedHomes(q2: seq<seq<Tid>>, q: seq<seq<Tid>>, tcpu: map<Tid, nat>, self: nat, cur: Tid, back: bool)
    requires Homes(q2, tcpu) && self < |q2| && q == if back then q2[self := q2[self] + [cur]] else q2
    requires back ==> cur in tcpu && tcpu[cur] == self && cur !in q2[self]
    ensures Homes(q, tcpu)
  {
    assert Distinct(q2[self]);
    DistinctConcat(q2[self], if back then [cur] else []);
  }

  lemma {:induction false} GainedSame(q0: seq<seq<Tid>>, q1: seq<seq<Tid>>, q2: seq<seq<Tid>>, q: seq<seq<Tid>>,
                                      self: nat, n: nat)
    requires forall j :: 0 <= j < n && j != self ==> Gain(q0, q, j) == Gain(q1, q2, j)
    ensures Gained(q0, q, self, n) == Gained(q1, q2, self, n)
  {
    hide Gain;
    if n > 0 {
      GainedSame(q0, q1, q2, q, self, n - 1);
    }
  }

  lemma AllConserved(q0: seq<seq<Tid>>, q: seq<seq<Tid>>, self: nat, share: nat, cur: Tid)
    requires self < |q0| == |q| && share <= |q0[self]| && Distinct(q0[self]) && Conserved(q0, q, self, |q0|)
    requires Gained(q0, q, self, |q0|) == Minus(q0[self][share..], cur)
    requires q[self] == q0[self][..share] + (if cur in q0[self][share..] then [cur] else [])
    ensures All(q, |q|) == All(q0, |q0|)
  {
    var l, n := q0[self], |q0|;
    var v := l[share..];
    ConservedMeans(q0, q, self);
    hide Conserved, All, Own, Gained;
    KeptAndGone(l, share, cur);
    var kept, gone := multiset(q[self]), multiset(Minus(v, cur));
    Cancel(All(q, n), All(q0, n), multiset(l), kept, gone);
  }

  lemma KeptAndGone(l: seq<Tid>, share: nat, cur: Tid)
    requires share <= |l| && Distinct(l)
    ensures var v := l[share..];
      multiset(l) == multiset(l[..share] + if cur in v then [cur] else []) + multiset(Minus(v, cur))
  {
    var v := l[share..];
    assert l == l[..share] + v;
    assert Distinct(v);
    hide Minus;
    if cur in v {
      MinusOnce(v, cur);
      assert multiset(l[..share] + [cur]) == multiset(l[..share]) + multiset{cur};
    } else {
      MinusAbsent(v, cur);
      assert l[..share] + [] == l[..share];
    }
  }

  lemma ConservedMeans(q0: seq<seq<Tid>>, q: seq<seq<Tid>>, self: nat)
    requires self < |q0| == |q| && Conserved(q0, q, self, |q0|)
    ensures All(q, |q0|) + multiset(q0[self]) ==
      All(q0, |q0|) + multiset(q[self]) + multiset(Gained(q0, q, self, |q0|))
  {
    hide All, Gained;
  }

  lemma Cancel(a: multiset<Tid>, b: multiset<Tid>, l: multiset<Tid>, kept: multiset<Tid>, gone: multiset<Tid>)
    requires a + l == b + kept + gone && l == kept + gone
    ensures a == b
  {
    assert b + kept + gone == b + l;
    assert (a + l) - l == a && (b + l) - l == b;
  }
}
