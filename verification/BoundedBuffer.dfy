/**
 * The bounded buffer: any number of producers and consumers, each running the lines of producer_send or
 * consumer_receive one at a time and in any interleaving.
 */
module BoundedBuffer {
  import opened Arith
  import opened Basics

  datatype Item = Item(item1: int, item2: int)

  /**
   * How far a worker is: outside; past its P; holding the lock; with one field copied; with both; with its index
   * moved on; with the lock released and its V still to come.
   */
  datatype Place = Out | Admitted | Locked | Half | Both | Moved | Unlocked

  datatype Worker =
    | Producer(place: Place, item: Item)
    | Consumer(place: Place, item: Item)

  /**
   * The ring of n slots, its indices, the counts of full_sem (free slots) and empty_sem (items), the lock's holder,
   * the workers, and all items put in and taken out so far.
   */
  datatype State = State(n: nat, slots: seq<Item>, hi: nat, lo: nat, full: nat, empty: nat, lock: Option<nat>,
                         workers: seq<Worker>, sent: seq<Item>, received: seq<Item>)

  datatype Step =
    | Enter(t: nat, item: Item)
    | Acquire(t: nat)
    | First(t: nat)
    | Second(t: nat)
    | Advance(t: nat)
    | Release(t: nat)
    | Signal(t: nat)

  predicate Enabled(s: State, step: Step) {
    step.t < |s.workers| && s.n > 0 && s.hi < |s.slots| && s.lo < |s.slots| &&
    var w := s.workers[step.t];
    match step
    case Enter(_, _) => w.place == Out && (if w.Producer? then s.full > 0 else s.empty > 0)
    case Acquire(_) => w.place == Admitted && s.lock == None
    case First(_) => w.place == Locked
    case Second(_) => w.place == Half
    case Advance(_) => w.place == Both
    case Release(_) => w.place == Moved
    case Signal(_) => w.place == Unlocked
  }

  /** Worker t reaches the next place with item in hand. */
  function At(s: State, t: nat, p: Place, item: Item): State
    requires t < |s.workers|
  {
    s.(workers := s.workers[t := if s.workers[t].Producer? then Producer(p, item) else Consumer(p, item)])
  }

  function Next(s: State, step: Step): State
    requires Enabled(s, step)
  {
    var t, w := step.t, s.workers[step.t];
    var item := w.item;
    match step
    case Enter(_, given) =>
      if w.Producer? then At(s, t, Admitted, given).(full := s.full - 1)
      else At(s, t, Admitted, item).(empty := s.empty - 1)
    case Acquire(_) => At(s, t, Locked, item).(lock := Some(t))
    case First(_) =>
      if w.Producer? then At(s, t, Half, item).(slots := s.slots[s.hi := s.slots[s.hi].(item1 := item.item1)])
      else At(s, t, Half, item.(item1 := s.slots[s.lo].item1))
    case Second(_) =>
      if w.Producer? then At(s, t, Both, item).(slots := s.slots[s.hi := s.slots[s.hi].(item2 := item.item2)])
      else At(s, t, Both, item.(item2 := s.slots[s.lo].item2))
    case Advance(_) =>
      if w.Producer? then At(s, t, Moved, item).(hi := (s.hi + 1) % s.n, sent := s.sent + [item])
      else At(s, t, Moved, item).(lo := (s.lo + 1) % s.n, received := s.received + [item])
    case Release(_) => At(s, t, Unlocked, item).(lock := None)
    case Signal(_) =>
      if w.Producer? then At(s, t, Out, item).(empty := s.empty + 1) else At(s, t, Out, item).(full := s.full + 1)
  }

  // ---------------------------------------------------------------- counting workers

  /** The four kinds of worker under way: on either side, before or after the index has moved. */
  datatype Kind = Kind(producing: bool, moved: bool)

  predicate Underway(w: Worker) { w.place != Out }

  predicate IsKind(w: Worker, k: Kind) {
    Underway(w) && w.Producer? == k.producing && (w.place == Moved || w.place == Unlocked) == k.moved
  }

  function One(w: Worker, k: Kind): nat { if IsKind(w, k) then 1 else 0 }

  function Count(ws: seq<Worker>, k: Kind): nat {
    if ws == [] then 0 else Count(ws[..|ws| - 1], k) + One(ws[|ws| - 1], k)
  }

  lemma {:induction false} CountUpdate(ws: seq<Worker>, t: nat, w: Worker, k: Kind)
    requires t < |ws|
    ensures Count(ws[t := w], k) == Count(ws, k) + One(w, k) - One(ws[t], k)
  {
    var ws' := ws[t := w];
    if t == |ws| - 1 {
      assert ws'[..|ws| - 1] == ws[..|ws| - 1];
    } else {
      CountUpdate(ws[..|ws| - 1], t, w, k);
      assert ws'[..|ws| - 1] == ws[..|ws| - 1][t := w];
    }
  }

  lemma {:induction false} CountPositive(ws: seq<Worker>, t: nat, k: Kind)
    requires t < |ws| && IsKind(ws[t], k)
    ensures Count(ws, k) > 0
  {
    if t < |ws| - 1 {
      CountPositive(ws[..|ws| - 1], t, k);
    }
  }

  function UnderwayCount(ws: seq<Worker>): nat {
    if ws == [] then 0 else UnderwayCount(ws[..|ws| - 1]) + (if Underway(ws[|ws| - 1]) then 1 else 0)
  }

  lemma {:induction false} UnderwaySplit(ws: seq<Worker>)
    ensures UnderwayCount(ws) ==
      Count(ws, Kind(true, false)) + Count(ws, Kind(true, true)) +
      Count(ws, Kind(false, false)) + Count(ws, Kind(false, true))
  {
    if ws != [] {
      UnderwaySplit(ws[..|ws| - 1]);
    }
  }

  // ---------------------------------------------------------------- the invariant

  /** The items in the ring. */
  function Stored(s: State): int { |s.sent| - |s.received| }

  /**
   * Slots and semaphores: each free slot is announced by full_sem or in a worker's hands, and each item by empty_sem
   * or so.
   */
  ghost predicate CountsOk(s: State) {
    0 <= Stored(s) <= s.n &&
    s.full + Count(s.workers, Kind(true, false)) + Count(s.workers, Kind(false, true)) + Stored(s) == s.n &&
    s.empty + Count(s.workers, Kind(false, false)) + Count(s.workers, Kind(true, true)) == Stored(s)
  }

  function SlotOf(k: nat, n: nat): nat
    requires n > 0
  {
    k % n
  }

  /** The ring holds, from lo on, exactly the items put in and not yet taken out, and those taken out came in first. */
  ghost predicate RingOk(s: State) {
    s.n > 0 && |s.slots| == s.n && s.hi == SlotOf(|s.sent|, s.n) && s.lo == SlotOf(|s.received|, s.n) &&
    s.received <= s.sent &&
    forall k :: |s.received| <= k < |s.sent| ==> SlotHolds(s, k)
  }

  ghost predicate SlotHolds(s: State, k: nat)
    requires s.n > 0 && |s.slots| == s.n && k < |s.sent|
  {
    SlotOf(k, s.n) < |s.slots| && s.slots[SlotOf(k, s.n)] == s.sent[k]
  }

  predicate HasLock(w: Worker) {
    w.place == Locked || w.place == Half || w.place == Both || w.place == Moved
  }

  /** The lock's holder is the worker inside, and what a worker has copied so far is right. */
  ghost predicate WorkerOk(s: State, t: nat)
    requires t < |s.workers|
  {
    var w := s.workers[t];
    (HasLock(w) <==> s.lock == Some(t)) &&
    (w.Producer? && w.place == Half ==> s.hi < |s.slots| && s.slots[s.hi].item1 == w.item.item1) &&
    (w.Producer? && w.place == Both ==> s.hi < |s.slots| && s.slots[s.hi] == w.item) &&
    (w.Consumer? && w.place == Half ==> s.lo < |s.slots| && s.slots[s.lo].item1 == w.item.item1) &&
    (w.Consumer? && w.place == Both ==> s.lo < |s.slots| && s.slots[s.lo] == w.item)
  }

  ghost predicate Inv(s: State) {
    CountsOk(s) && RingOk(s) && (s.lock.Some? ==> s.lock.value < |s.workers|) &&
    forall t :: 0 <= t < |s.workers| ==> WorkerOk(s, t)
  }

  // ---------------------------------------------------------------- ring arithmetic

  lemma SlotNext(k: nat, n: nat)
    requires n > 0
    ensures SlotOf(k + 1, n) == (SlotOf(k, n) + 1) % n && SlotOf(k, n) < n
  {
    var q, r := k / n, k % n;
    DivModEquation(k, n);
    if r + 1 < n {
      DivModUnique(k + 1, q, r + 1, n);
      ModSmall(r + 1, n);
    } else {
      Distribute(n, q, 1);
      DivModUnique(k + 1, q + 1, 0, n);
      DivModUnique(r + 1, 1, 0, n);
    }
  }

  /** Fewer than n apart, different places in the ring. */
  lemma SlotsApart(j: nat, k: nat, n: nat)
    requires n > 0 && j < k < j + n
    ensures SlotOf(j, n) != SlotOf(k, n)
  {
    if SlotOf(j, n) == SlotOf(k, n) {
      DivModEquation(j, n);
      DivModEquation(k, n);
      assert k - j == (k / n) * n - (j / n) * n;
      MulCancelLess(j / n, k / n, n);
      MulLeft(n, j / n + 1, k / n);
    }
  }

  // ---------------------------------------------------------------- every step keeps the invariant

  /** The counts after one worker has moved on. */
  lemma CountsMove(s: State, step: Step)
    requires Enabled(s, step)
    ensures forall k :: Count(Next(s, step).workers, k) - Count(s.workers, k) ==
                        One(Next(s, step).workers[step.t], k) - One(s.workers[step.t], k)
  {
    forall k
      ensures Count(Next(s, step).workers, k) - Count(s.workers, k) ==
              One(Next(s, step).workers[step.t], k) - One(s.workers[step.t], k)
    {
      CountUpdate(s.workers, step.t, Next(s, step).workers[step.t], k);
    }
  }

  /** A producer that has not moved on has a free slot to itself, a consumer that has not an item. */
  lemma RoomFor(s: State, t: nat)
    requires CountsOk(s) && t < |s.workers|
    ensures IsKind(s.workers[t], Kind(true, false)) ==> Stored(s) < s.n
    ensures IsKind(s.workers[t], Kind(false, false)) ==> Stored(s) > 0
  {
    hide Stored;
    if IsKind(s.workers[t], Kind(true, false)) {
      CountPositive(s.workers, t, Kind(true, false));
    }
    if IsKind(s.workers[t], Kind(false, false)) {
      CountPositive(s.workers, t, Kind(false, false));
    }
  }

  lemma NextCounts(s: State, step: Step)
    requires CountsOk(s) && Enabled(s, step)
    ensures CountsOk(Next(s, step))
  {
    hide Count;
    CountsMove(s, step);
    RoomFor(s, step.t);
  }

  /**
   * The next slot to be filled holds no item while there is room, and the next to be emptied holds one while there are
   * items.
   */
  lemma HiIsFree(s: State, k: nat)
    requires RingOk(s) && |s.received| <= k < |s.sent| && Stored(s) < s.n
    ensures SlotOf(k, s.n) != s.hi
  {
    SlotsApart(k, |s.sent|, s.n);
  }

  /** A producer's write into the free slot disturbs nothing stored. */
  lemma Written(s: State, s': State)
    requires RingOk(s) && Stored(s) < s.n && |s'.slots| == s.n == s'.n && s'.hi == s.hi && s'.lo == s.lo
    requires s'.sent == s.sent && s'.received == s.received
    requires forall j :: 0 <= j < s.n && j != s.hi ==> s'.slots[j] == s.slots[j]
    ensures RingOk(s')
  {
    hide SlotOf;
    forall k | |s.received| <= k < |s.sent|
      ensures SlotHolds(s', k)
    {
      HiIsFree(s, k);
      assert SlotHolds(s, k);
    }
  }

  lemma NextRing(s: State, step: Step)
    requires Inv(s) && Enabled(s, step)
    ensures RingOk(Next(s, step))
  {
    var s', t, w := Next(s, step), step.t, s.workers[step.t];
    RoomFor(s, t);
    assert WorkerOk(s, t);
    hide CountsOk, Count, SlotOf, RingOk, WorkerOk;
    match step
    case First(_) =>
      if w.Producer? {
        Written(s, s');
      } else {
        SameRing(s, s');
      }
    case Second(_) =>
      if w.Producer? {
        Written(s, s');
      } else {
        SameRing(s, s');
      }
    case Advance(_) =>
      if w.Producer? {
        AdvanceSend(s, w.item);
        SameRing(s.(hi := (s.hi + 1) % s.n, sent := s.sent + [w.item]), s');
      } else {
        AdvanceReceive(s, w.item);
        SameRing(s.(lo := (s.lo + 1) % s.n, received := s.received + [w.item]), s');
      }
    case _ => SameRing(s, s');
  }

  lemma SameRing(s: State, s': State)
    requires RingOk(s) && s'.n == s.n && s'.slots == s.slots && s'.hi == s.hi && s'.lo == s.lo
    requires s'.sent == s.sent && s'.received == s.received
    ensures RingOk(s')
  {
    hide SlotOf;
    forall k | |s.received| <= k < |s.sent|
      ensures SlotHolds(s', k)
    {
      assert SlotHolds(s, k);
    }
  }

  /** Moving hi on makes the item just written the last one in the ring. */
  lemma AdvanceSend(s: State, item: Item)
    requires RingOk(s) && s.slots[s.hi] == item
    ensures RingOk(s.(hi := (s.hi + 1) % s.n, sent := s.sent + [item]))
  {
    SlotNext(|s.sent|, s.n);
    hide SlotOf;
    var s' := s.(hi := (s.hi + 1) % s.n, sent := s.sent + [item]);
    forall k | |s.received| <= k < |s'.sent|
      ensures SlotHolds(s', k)
    {
      if k < |s.sent| {
        assert SlotHolds(s, k);
      }
    }
  }

  /** Moving lo on takes the first item out, and it is the one the consumer has copied. */
  lemma AdvanceReceive(s: State, item: Item)
    requires RingOk(s) && Stored(s) > 0 && s.slots[s.lo] == item
    ensures RingOk(s.(lo := (s.lo + 1) % s.n, received := s.received + [item]))
    ensures item == s.sent[|s.received|]
  {
    SlotNext(|s.received|, s.n);
    hide SlotOf;
    var s' := s.(lo := (s.lo + 1) % s.n, received := s.received + [item]);
    assert SlotHolds(s, |s.received|);
    forall k | |s'.received| <= k < |s.sent|
      ensures SlotHolds(s', k)
    {
      assert SlotHolds(s, k);
    }
  }

  lemma NextWorkers(s: State, step: Step)
    requires Inv(s) && Enabled(s, step)
    ensures |Next(s, step).workers| == |s.workers|
    ensures Next(s, step).lock.Some? ==> Next(s, step).lock.value < |s.workers|
    ensures forall t :: 0 <= t < |s.workers| ==> WorkerOk(Next(s, step), t)
  {
    hide CountsOk, SlotOf, SlotHolds, Count;
    var s' := Next(s, step);
    assert WorkerOk(s, step.t);
    forall t | 0 <= t < |s.workers|
      ensures WorkerOk(s', t)
    {
      assert WorkerOk(s, t);
    }
  }

  lemma NextKeepsInv(s: State, step: Step)
    requires Inv(s) && Enabled(s, step)
    ensures Inv(Next(s, step))
  {
    NextCounts(s, step);
    NextRing(s, step);
    NextWorkers(s, step);
    hide CountsOk, RingOk, WorkerOk;
  }

  // ---------------------------------------------------------------- what follows

  /** The semaphores and the workers under way always add up to the size of the buffer. */
  lemma SemaphoresAddUp(s: State)
    requires Inv(s)
    ensures s.full + s.empty + UnderwayCount(s.workers) == s.n
  {
    UnderwaySplit(s.workers);
  }

  /** Producers never overwrite an item and consumers never read an empty slot. */
  lemma NeverOverOrUnder(s: State, t: nat)
    requires Inv(s) && t < |s.workers| && HasLock(s.workers[t]) && s.workers[t].place != Moved
    ensures s.workers[t].Producer? ==> |s.sent| - |s.received| < s.n
    ensures s.workers[t].Consumer? ==> |s.sent| > |s.received| && s.slots[s.lo] == s.sent[|s.received|]
  {
    RoomFor(s, t);
    if s.workers[t].Consumer? {
      assert SlotHolds(s, |s.received|);
    }
  }

  /** The step a worker under way takes next. */
  function Onward(w: Worker, t: nat): Step {
    match w.place
    case Locked => First(t)
    case Half => Second(t)
    case Both => Advance(t)
    case Moved => Release(t)
    case Unlocked => Signal(t)
    case _ => Acquire(t)
  }

  /** As long as a call is under way somebody can go on with one: the lock's holder, or else any of them. */
  lemma SomebodyGoesOn(s: State, t: nat) returns (u: nat)
    requires Inv(s) && t < |s.workers| && Underway(s.workers[t])
    ensures u < |s.workers| && Underway(s.workers[u]) && Enabled(s, Onward(s.workers[u], u))
  {
    u := if s.lock.Some? then s.lock.value else t;
    assert WorkerOk(s, u);
    SlotNext(|s.sent|, s.n);
    SlotNext(|s.received|, s.n);
    hide CountsOk, SlotOf;
  }

  /** And when none is under way, every producer or every consumer can begin one. */
  lemma SomebodyCanBegin(s: State)
    requires Inv(s) && forall t :: 0 <= t < |s.workers| ==> !Underway(s.workers[t])
    ensures (forall t, item :: 0 <= t < |s.workers| && s.workers[t].Producer? ==> Enabled(s, Enter(t, item))) ||
            (forall t, item :: 0 <= t < |s.workers| && s.workers[t].Consumer? ==> Enabled(s, Enter(t, item)))
  {
    SemaphoresAddUp(s);
    NoneUnderway(s.workers);
    SlotNext(|s.sent|, s.n);
    SlotNext(|s.received|, s.n);
    hide CountsOk, SlotOf;
  }

  lemma {:induction false} NoneUnderway(ws: seq<Worker>)
    requires forall t :: 0 <= t < |ws| ==> !Underway(ws[t])
    ensures UnderwayCount(ws) == 0
  {
    if ws != [] {
      NoneUnderway(ws[..|ws| - 1]);
    }
  }

  ghost predicate Moves(s: State, step: Step, s': State) {
    Enabled(s, step) && s' == Next(s, step)
  }

  ghost predicate Run(ss: seq<State>, steps: seq<Step>) {
    |ss| == |steps| + 1 && forall i :: 0 <= i < |steps| ==> Moves(ss[i], steps[i], After(ss, i))
  }

  ghost function After(ss: seq<State>, i: nat): State
    requires i + 1 < |ss|
  {
    ss[i + 1]
  }

  /** producerconsumer_startup, with workers of either kind that have not begun. */
  ghost predicate Startup(s: State) {
    s.n > 0 && |s.slots| == s.n && s.hi == s.lo == 0 && s.full == s.n && s.empty == 0 && s.lock == None &&
    s.sent == s.received == [] && forall t :: 0 <= t < |s.workers| ==> s.workers[t].place == Out
  }

  lemma {:induction false} CountNone(ws: seq<Worker>, k: Kind)
    requires forall t :: 0 <= t < |ws| ==> ws[t].place == Out
    ensures Count(ws, k) == 0
  {
    if ws != [] {
      CountNone(ws[..|ws| - 1], k);
    }
  }

  lemma StartupInv(s: State)
    requires Startup(s)
    ensures Inv(s)
  {
    CountNone(s.workers, Kind(true, false));
    CountNone(s.workers, Kind(true, true));
    CountNone(s.workers, Kind(false, false));
    CountNone(s.workers, Kind(false, true));
  }

  /**
   * In every run, whatever the buffer's size and the number of workers: what has come out is a prefix of what went in,
   * at most n items lie between them, and the counts add up.
   */
  lemma {:induction false} RunSafe(ss: seq<State>, steps: seq<Step>, i: nat)
    requires Run(ss, steps) && Startup(ss[0]) && i < |ss|
    ensures Inv(ss[i]) && ss[i].received <= ss[i].sent && |ss[i].sent| - |ss[i].received| <= ss[i].n
    ensures ss[i].full + ss[i].empty + UnderwayCount(ss[i].workers) == ss[i].n
  {
    if i == 0 {
      StartupInv(ss[0]);
    } else {
      hide Inv, Enabled, Next;
      RunSafe(ss, steps, i - 1);
      assert Moves(ss[i - 1], steps[i - 1], After(ss, i - 1));
      NextKeepsInv(ss[i - 1], steps[i - 1]);
    }
    InvMeans(ss[i]);
  }

  lemma InvMeans(s: State)
    requires Inv(s)
    ensures s.received <= s.sent && |s.sent| - |s.received| <= s.n
    ensures s.full + s.empty + UnderwayCount(s.workers) == s.n
  {
    SemaphoresAddUp(s);
  }

  // ---------------------------------------------------------------- one worker's call

  /** The places of a call, in order. */
  function Following(p: Place): Place {
    match p
    case Out => Admitted
    case Admitted => Locked
    case Locked => Half
    case Half => Both
    case Both => Moved
    case Moved => Unlocked
    case Unlocked => Out
  }

  /** Each step takes its worker one place further and leaves the others where they are. */
  lemma PlaceAfter(s: State, step: Step, u: nat)
    requires Enabled(s, step) && u < |s.workers|
    ensures |Next(s, step).workers| == |s.workers| && (Next(s, step).workers[u].Producer? <==> s.workers[u].Producer?)
    ensures u != step.t ==> Next(s, step).workers[u] == s.workers[u]
    ensures u == step.t ==> Next(s, step).workers[u].place == Following(s.workers[u].place)
  {
  }

  /** What a worker has in hand changes only when a producer is given an item and when a consumer copies its fields. */
  lemma ItemAfter(s: State, step: Step, t: nat)
    requires Enabled(s, step) && t < |s.workers|
    ensures t < |Next(s, step).workers|
    ensures step.t == t && step.Enter? && s.workers[t].Producer? ==> Next(s, step).workers[t].item == step.item
    ensures step.t != t || (if s.workers[t].Producer? then !step.Enter? else !step.First? && !step.Second?) ==>
      Next(s, step).workers[t].item == s.workers[t].item
  {
  }

  /** Items are sent and received by moving an index on, and by nothing else. */
  lemma HistoryAfter(s: State, step: Step)
    requires Enabled(s, step)
    ensures var w := s.workers[step.t];
      Next(s, step).sent == s.sent + if step.Advance? && w.Producer? then [w.item] else []
    ensures var w := s.workers[step.t];
      Next(s, step).received == s.received + if step.Advance? && w.Consumer? then [w.item] else []
  {
  }

  /** In every run what a producer sends is the item its call was given, however long it waits in between. */
  lemma {:induction false} SendsWhatItWasGiven(ss: seq<State>, steps: seq<Step>, m: nat, n: nat, t: nat, item: Item)
    requires Run(ss, steps) && m < n < |ss| && steps[m] == Enter(t, item) && ss[m].workers[t].Producer?
    requires forall k :: m < k < n ==> !(steps[k].Enter? && steps[k].t == t)
    ensures t < |ss[n].workers| && ss[n].workers[t].Producer? && ss[n].workers[t].item == item
    ensures n < |steps| && steps[n] == Advance(t) ==> ss[n + 1].sent == ss[n].sent + [item]
  {
    hide Enabled, Next;
    assert Moves(ss[n - 1], steps[n - 1], After(ss, n - 1)) && After(ss, n - 1) == ss[n];
    if m < n - 1 {
      SendsWhatItWasGiven(ss, steps, m, n - 1, t, item);
    } else {
      StepsWorker(ss[m], steps[m]);
    }
    PlaceAfter(ss[n - 1], steps[n - 1], t);
    ItemAfter(ss[n - 1], steps[n - 1], t);
    if n < |steps| {
      assert Moves(ss[n], steps[n], After(ss, n)) && After(ss, n) == ss[n + 1];
      if steps[n] == Advance(t) {
        HistoryAfter(ss[n], steps[n]);
      }
    }
  }

  lemma StepsWorker(s: State, step: Step)
    requires Enabled(s, step)
    ensures step.t < |s.workers|
  {
  }

  /**
   * In every run what a consumer's call has in hand after it has moved the index on, until it copies again, is the item
   * sent at the place in the order at which it received.
   */
  lemma {:induction false} ReturnsWhatItReceived(ss: seq<State>, steps: seq<Step>, m: nat, n: nat, t: nat)
    requires Run(ss, steps) && Startup(ss[0]) && m < n < |ss| && steps[m] == Advance(t)
    requires t < |ss[m].workers| && ss[m].workers[t].Consumer?
    requires forall k :: m < k < n ==> steps[k] != First(t) && steps[k] != Second(t)
    ensures |ss[m].received| < |ss[m].sent| && t < |ss[n].workers| && ss[n].workers[t].Consumer?
    ensures ss[n].workers[t].item == ss[m].sent[|ss[m].received|]
  {
    hide Enabled, Next, Inv;
    assert Moves(ss[n - 1], steps[n - 1], After(ss, n - 1)) && After(ss, n - 1) == ss[n];
    if m < n - 1 {
      ReturnsWhatItReceived(ss, steps, m, n - 1, t);
    } else {
      RunSafe(ss, steps, m);
      TakesOldest(ss[m], t);
    }
    PlaceAfter(ss[n - 1], steps[n - 1], t);
    ItemAfter(ss[n - 1], steps[n - 1], t);
  }

  lemma TakesOldest(s: State, t: nat)
    requires Inv(s) && Enabled(s, Advance(t)) && s.workers[t].Consumer?
    ensures |s.received| < |s.sent| && s.workers[t].item == s.sent[|s.received|]
  {
    RoomFor(s, t);
    assert WorkerOk(s, t) && SlotHolds(s, |s.received|);
  }

  // ---------------------------------------------------------------- the ring itself

  /** The shared array and its indices, as the code between acquiring and releasing the lock uses them. */
  class Ring {
    const buffer: array<Item>
    var hi: nat
    var lo: nat
    ghost var sent: seq<Item>
    ghost var received: seq<Item>

    ghost function View(): State
      reads this, buffer
    {
      State(buffer.Length, buffer[..], hi, lo, 0, 0, None, [], sent, received)
    }

    ghost predicate Valid()
      reads this, buffer
    {
      RingOk(View()) && |sent| - |received| <= buffer.Length
    }

    /** producerconsumer_startup */
    constructor (n: nat)
      requires n > 0
      ensures Valid() && fresh(buffer) && buffer.Length == n && sent == received == []
    {
      buffer := new Item[n];
      hi, lo, sent, received := 0, 0, [], [];
    }

    /** The locked part of producer_send. */
    method Send(item: Item)
      requires Valid() && |sent| - |received| < buffer.Length
      modifies this, buffer
      ensures Valid() && sent == old(sent) + [item] && received == old(received)
    {
      ghost var s := View();
      buffer[hi] := buffer[hi].(item1 := item.item1);
      buffer[hi] := buffer[hi].(item2 := item.item2);
      assert buffer[hi] == item;
      Written(s, View());
      AdvanceSend(View(), item);
      hi := (hi + 1) % buffer.Length;
      sent := sent + [item];
    }

    /** The locked part of consumer_receive. */
    method Receive() returns (item: Item)
      requires Valid() && |sent| > |received|
      modifies this
      ensures Valid() && received == old(received) + [item] && sent == old(sent)
      ensures item == sent[|old(received)|]
    {
      var item1 := buffer[lo].item1;
      var item2 := buffer[lo].item2;
      item := Item(item1, item2);
      AdvanceReceive(View(), item);
      lo := (lo + 1) % buffer.Length;
      received := received + [item];
    }
  }
}
