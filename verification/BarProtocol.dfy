/**
 * Any number of bartenders filling orders at once, the deadlock detector watching.  Bottle locks are taken in
 * ascending order, so no cycle can form, every mix has its bottles to itself, and somebody can always go on.
 */
module BarProtocol {
  import opened BarOrders
  import opened Basics
  import opened WaitsFor

  datatype Phase = Idle | Taking | Mixing | Returning

  /** A bartender, the order in hand, the bottles it needs in the order of taking, and how many are held. */
  datatype Bartender = Bartender(request: seq<nat>, plan: seq<nat>, got: nat, phase: Phase)

  /** The staff, and who waits for and holds which bottle lock as the detector knows it. */
  datatype Bar = Bar(staff: seq<Bartender>, g: Graph<int, nat>)

  datatype Step =
    | Start(t: nat, request: seq<nat>, sorted: seq<nat>)
    | Ask(t: nat)
    | Get(t: nat)
    | Mix(t: nat)
    | Finish(t: nat)
    | Drop(t: nat)
    | Leave(t: nat)

  /** The bottles below nb exist; requests number them from 1. */
  predicate ValidRequest(request: seq<nat>, nb: nat) {
    forall i :: 0 <= i < |request| ==> request[i] <= nb
  }

  /** The next bottle a bartender goes for. */
  function Wanted(b: Bartender): nat {
    if b.got < |b.plan| then b.plan[b.got] else 0
  }

  ghost predicate Enabled(s: Bar, step: Step, nb: nat) {
    step.t < |s.staff| &&
    var t, b := step.t, s.staff[step.t];
    match step
    case Start(_, request, sorted) =>
      b.phase == Idle && ValidRequest(request, nb) && Ascending(sorted) && multiset(sorted) == multiset(request)
    case Ask(_) => b.phase == Taking && b.got < |b.plan| && t !in s.g.waiting
    case Get(_) => b.phase == Taking && b.got < |b.plan| && t in s.g.waiting && Wanted(b) !in s.g.holding
    case Mix(_) => b.phase == Taking && b.got == |b.plan|
    case Finish(_) => b.phase == Mixing
    case Drop(_) => b.phase == Returning && 0 < b.got <= |b.plan|
    case Leave(_) => b.phase == Returning && b.got == 0
  }

  function Next(s: Bar, step: Step): Bar
    requires step.t < |s.staff|
  {
    var t, b := step.t, s.staff[step.t];
    match step
    case Start(_, request, sorted) => Bar(s.staff[t := Bartender(request, Needed(sorted, |sorted|), 0, Taking)], s.g)
    case Ask(_) => s.(g := Wait(s.g, t, Wanted(b)))
    case Get(_) => Bar(s.staff[t := b.(got := b.got + 1)], Acquire(s.g, t, Wanted(b)))
    case Mix(_) => s.(staff := s.staff[t := b.(phase := Mixing)])
    case Finish(_) => s.(staff := s.staff[t := b.(phase := Returning)])
    case Drop(_) =>
      if 0 < b.got <= |b.plan|
      then Bar(s.staff[t := b.(got := b.got - 1)], Release(s.g, b.plan[b.got - 1]))
      else s
    case Leave(_) => s.(staff := s.staff[t := b.(phase := Idle)])
  }

  ghost predicate BartenderOk(b: Bartender, nb: nat) {
    StrictlyAscending(b.plan) && b.got <= |b.plan| &&
    (forall i :: 0 <= i < |b.plan| ==> b.plan[i] < nb) &&
    (b.phase != Idle ==> forall c: nat :: c in b.plan <==> c + 1 in b.request) &&
    (b.phase == Mixing ==> b.got == |b.plan|) && (b.phase == Idle ==> b.got == 0)
  }

  /** b holds bottle c. */
  ghost predicate Has(b: Bartender, c: nat) {
    b.got <= |b.plan| && c in b.plan[..b.got]
  }

  ghost predicate StaffOk(s: Bar, nb: nat) {
    forall t :: 0 <= t < |s.staff| ==> BartenderOk(s.staff[t], nb)
  }

  /** The graph's holders are the bartenders that have the bottles. */
  ghost predicate HoldingOk(s: Bar) {
    (forall c :: c in s.g.holding ==> 0 <= s.g.holding[c] < |s.staff| && Has(s.staff[s.g.holding[c]], c)) &&
    forall t, c :: 0 <= t < |s.staff| && Has(s.staff[t], c) ==> c in s.g.holding && s.g.holding[c] == t
  }

  /** Whoever waits in the graph is waiting for the next bottle of its plan. */
  ghost predicate WaitingOk(s: Bar) {
    forall t :: t in s.g.waiting ==> 0 <= t < |s.staff| && Waits(s.staff[t], s.g.waiting[t])
  }

  ghost predicate Inv(s: Bar, nb: nat) {
    StaffOk(s, nb) && HoldingOk(s) && WaitingOk(s)
  }

  ghost predicate Waits(b: Bartender, c: nat) {
    b.phase == Taking && b.got < |b.plan| && c == Wanted(b)
  }

  // ---------------------------------------------------------------- the order of taking

  /** Whatever a bartender holds is below what it goes for next. */
  lemma HeldBelowWanted(b: Bartender, c: nat)
    requires StrictlyAscending(b.plan) && b.got < |b.plan| && Has(b, c)
    ensures c < Wanted(b)
  {
    var i :| 0 <= i < b.got && b.plan[..b.got][i] == c;
  }

  /** Along the waits-for graph the bottles waited for only go up. */
  lemma {:induction false} WalkClimbs(s: Bar, nb: nat, t: int, k: nat, u: int)
    requires Inv(s, nb) && t in s.g.waiting && u in s.g.waiting && k > 0 && Walk(s.g, t, k) == Some(u)
    ensures s.g.waiting[u] > s.g.waiting[t]
  {
    var x := Walk(s.g, t, k - 1).value;
    assert WaitsFor.Next(s.g, x) == Some(u);
    HeldBelowWanted(s.staff[u], s.g.waiting[x]);
    if k > 1 {
      WalkClimbs(s, nb, t, k - 1, x);
    }
  }

  lemma NoCycle(s: Bar, nb: nat)
    requires Inv(s, nb)
    ensures Acyclic(s.g)
  {
    forall a, k: nat | a in s.g.waiting && k > 0
      ensures Walk(s.g, a, k) != Some(a)
    {
      if Walk(s.g, a, k) == Some(a) {
        WalkClimbs(s, nb, a, k, a);
      }
    }
  }

  /** The detector never fires: when a bartender asks for its next bottle, waiting for it closes no cycle. */
  lemma DetectorSilent(s: Bar, nb: nat, t: nat)
    requires Inv(s, nb) && Enabled(s, Ask(t), nb)
    ensures !ClosesCycle(s.g, t, Wanted(s.staff[t]))
  {
    var c := Wanted(s.staff[t]);
    if c in s.g.holding {
      forall k: nat
        ensures Walk(s.g, s.g.holding[c], k) != Some(t)
      {
        NoWayBack(s, nb, t, k);
      }
    }
  }

  /** Who waits for t waits for a bottle below the one t goes for next. */
  lemma WaiterBelow(s: Bar, nb: nat, t: nat, x: int)
    requires Inv(s, nb) && Enabled(s, Ask(t), nb) && WaitsFor.Next(s.g, x) == Some(t)
    ensures x in s.g.waiting && s.g.waiting[x] < Wanted(s.staff[t])
  {
    HeldBelowWanted(s.staff[t], s.g.waiting[x]);
  }

  /** Whoever is reached from the holder of c, and waits, waits for a bottle above c. */
  lemma WaiterAbove(s: Bar, nb: nat, c: nat, k: nat, x: int)
    requires Inv(s, nb) && c in s.g.holding && Walk(s.g, s.g.holding[c], k) == Some(x) && x in s.g.waiting
    ensures s.g.waiting[x] > c
  {
    var h := s.g.holding[c];
    if k > 0 {
      WalkFrom(s.g, h, k);
      WalkClimbs(s, nb, h, k, x);
    }
    HeldBelowWanted(s.staff[h], c);
  }

  lemma NoWayBack(s: Bar, nb: nat, t: nat, k: nat)
    requires Inv(s, nb) && Enabled(s, Ask(t), nb) && Wanted(s.staff[t]) in s.g.holding
    ensures Walk(s.g, s.g.holding[Wanted(s.staff[t])], k) != Some(t)
  {
    var c := Wanted(s.staff[t]);
    var h := s.g.holding[c];
    if k == 0 {
      NotOwnWanted(s, nb, t);
    } else if Walk(s.g, h, k) == Some(t) {
      hide Inv, Enabled;
      var x := Walk(s.g, h, k - 1).value;
      WaiterBelow(s, nb, t, x);
      WaiterAbove(s, nb, c, k - 1, x);
    }
  }

  lemma NotOwnWanted(s: Bar, nb: nat, t: nat)
    requires Inv(s, nb) && Enabled(s, Ask(t), nb) && Wanted(s.staff[t]) in s.g.holding
    ensures s.g.holding[Wanted(s.staff[t])] != t
  {
    var b, c := s.staff[t], Wanted(s.staff[t]);
    if Has(b, c) {
      HeldBelowWanted(b, c);
    }
  }

  // ---------------------------------------------------------------- every step keeps the invariant

  lemma PlanOk(request: seq<nat>, sorted: seq<nat>, nb: nat)
    requires ValidRequest(request, nb) && Ascending(sorted) && multiset(sorted) == multiset(request)
    ensures BartenderOk(Bartender(request, Needed(sorted, |sorted|), 0, Taking), nb)
  {
    NeededSorted(sorted, |sorted|);
    NeededMembers(sorted, |sorted|);
    assert sorted[..|sorted|] == sorted;
    assert forall x :: x in sorted <==> x in multiset(sorted);
    assert forall x :: x in request <==> x in multiset(request);
    var plan := Needed(sorted, |sorted|);
    forall i | 0 <= i < |plan|
      ensures plan[i] < nb
    {
      assert plan[i] in plan;
    }
  }

  lemma HasMore(b: Bartender, c: nat)
    requires b.got < |b.plan|
    ensures Has(b.(got := b.got + 1), c) <==> Has(b, c) || c == Wanted(b)
  {
    assert b.plan[..b.got + 1] == b.plan[..b.got] + [b.plan[b.got]];
  }

  lemma HasLess(b: Bartender, c: nat)
    requires StrictlyAscending(b.plan) && 0 < b.got <= |b.plan|
    ensures Has(b.(got := b.got - 1), c) <==> Has(b, c) && c != b.plan[b.got - 1]
  {
    var b' := b.(got := b.got - 1);
    assert b.plan[..b.got] == b.plan[..b.got - 1] + [b.plan[b.got - 1]];
    if Has(b', c) {
      HeldBelowWanted(b', c);
    }
  }

  lemma AskKeepsInv(s: Bar, t: nat, nb: nat)
    requires Inv(s, nb) && Enabled(s, Ask(t), nb)
    ensures Inv(Next(s, Ask(t)), nb)
  {
    hide BartenderOk, Has;
  }

  lemma GetKeepsInv(s: Bar, t: nat, nb: nat)
    requires Inv(s, nb) && Enabled(s, Get(t), nb)
    ensures Inv(Next(s, Get(t)), nb)
  {
    var b, s' := s.staff[t], Next(s, Get(t));
    assert BartenderOk(b, nb) && BartenderOk(s'.staff[t], nb);
    forall c {
      HasMore(b, c);
    }
    hide BartenderOk, Has, Wanted, Waits;
    assert StaffOk(s', nb) && WaitingOk(s');
    hide StaffOk, WaitingOk;
    assert HoldingOk(s') by { HoldingGained(s, s', t, Wanted(b)); }
  }

  lemma HoldingGained(s: Bar, s': Bar, t: nat, c0: nat)
    requires HoldingOk(s) && t < |s.staff| == |s'.staff| && s'.staff == s.staff[t := s'.staff[t]]
    requires c0 !in s.g.holding && s'.g.holding == s.g.holding[c0 := t]
    requires forall c :: Has(s'.staff[t], c) <==> Has(s.staff[t], c) || c == c0
    ensures HoldingOk(s')
  {
    hide Has;
  }

  lemma DropKeepsInv(s: Bar, t: nat, nb: nat)
    requires Inv(s, nb) && Enabled(s, Drop(t), nb)
    ensures Inv(Next(s, Drop(t)), nb)
  {
    var b, s' := s.staff[t], Next(s, Drop(t));
    assert BartenderOk(b, nb) && BartenderOk(s'.staff[t], nb);
    var c0 := b.plan[b.got - 1];
    DroppedHas(b, nb);
    hide BartenderOk, Has, Wanted, StaffOk;
    assert StaffOk(s', nb) by { StaffUpdated(s, s', t, nb); }
    assert t in s.g.waiting ==> Waits(b, s.g.waiting[t]);
    assert s.g.holding[c0] == t && t !in s.g.waiting;
    hide Waits;
    assert WaitingOk(s');
    hide WaitingOk;
    assert HoldingOk(s') by { HoldingDropped(s, s', t, c0); }
  }

  lemma HoldingDropped(s: Bar, s': Bar, t: nat, c0: nat)
    requires HoldingOk(s) && t < |s.staff| == |s'.staff| && s'.staff == s.staff[t := s'.staff[t]]
    requires c0 in s.g.holding && s.g.holding[c0] == t && s'.g.holding == s.g.holding - {c0}
    requires forall c :: Has(s'.staff[t], c) <==> Has(s.staff[t], c) && c != c0
    ensures HoldingOk(s')
  {
    hide Has;
  }

  lemma HoldingSame(s: Bar, s': Bar, t: nat)
    requires HoldingOk(s) && t < |s.staff| == |s'.staff| && s'.staff == s.staff[t := s'.staff[t]]
    requires s'.g.holding == s.g.holding && forall c :: Has(s'.staff[t], c) <==> Has(s.staff[t], c)
    ensures HoldingOk(s')
  {
    hide Has;
  }

  lemma StaffUpdated(s: Bar, s': Bar, t: nat, nb: nat)
    requires StaffOk(s, nb) && t < |s.staff| == |s'.staff| && s'.staff == s.staff[t := s'.staff[t]]
    requires BartenderOk(s'.staff[t], nb)
    ensures StaffOk(s', nb)
  {
  }

  lemma DroppedHas(b: Bartender, nb: nat)
    requires BartenderOk(b, nb) && 0 < b.got <= |b.plan|
    ensures Has(b, b.plan[b.got - 1])
    ensures forall c :: Has(b.(got := b.got - 1), c) <==> Has(b, c) && c != b.plan[b.got - 1]
  {
    assert b.plan[..b.got][b.got - 1] == b.plan[b.got - 1];
    forall c {
      HasLess(b, c);
    }
  }

  /** The other steps change one bartender's phase, or its order, and neither the graph nor what anyone holds. */
  lemma PhaseKeepsInv(s: Bar, step: Step, nb: nat)
    requires Inv(s, nb) && Enabled(s, step, nb) && (step.Start? || step.Mix? || step.Finish? || step.Leave?)
    ensures Inv(Next(s, step), nb)
  {
    var t, s' := step.t, Next(s, step);
    PhaseBartender(s, step, nb);
    assert t in s.g.waiting ==> Waits(s.staff[t], s.g.waiting[t]);
    assert t !in s.g.waiting;
    hide BartenderOk, Has, Waits, Wanted;
    assert StaffOk(s', nb) && WaitingOk(s');
    hide StaffOk, WaitingOk;
    assert HoldingOk(s') by { HoldingSame(s, s', t); }
  }

  lemma PhaseBartender(s: Bar, step: Step, nb: nat)
    requires StaffOk(s, nb) && Enabled(s, step, nb) && (step.Start? || step.Mix? || step.Finish? || step.Leave?)
    ensures var t, s' := step.t, Next(s, step);
      BartenderOk(s'.staff[t], nb) && forall c :: Has(s'.staff[t], c) <==> Has(s.staff[t], c)
  {
    assert BartenderOk(s.staff[step.t], nb);
    if step.Start? {
      PlanOk(step.request, step.sorted, nb);
    }
  }

  lemma NextKeepsInv(s: Bar, step: Step, nb: nat)
    requires Inv(s, nb) && Enabled(s, step, nb)
    ensures Inv(Next(s, step), nb)
  {
    hide Inv, Enabled, Next;
    match step
    case Ask(t) => AskKeepsInv(s, t, nb);
    case Get(t) => GetKeepsInv(s, t, nb);
    case Drop(t) => DropKeepsInv(s, t, nb);
    case _ => PhaseKeepsInv(s, step, nb);
  }

  // ---------------------------------------------------------------- what the protocol guarantees

  lemma HolderIs(s: Bar, nb: nat, u: nat, c: nat)
    requires Inv(s, nb) && u < |s.staff| && Has(s.staff[u], c)
    ensures c in s.g.holding && s.g.holding[c] == u
  {
  }

  /** While it mixes, a bartender holds exactly the bottles its order names, and nobody else holds any of them. */
  lemma MixIsExclusive(s: Bar, nb: nat, t: nat)
    requires Inv(s, nb) && t < |s.staff| && s.staff[t].phase == Mixing
    ensures forall c: nat :: c + 1 in s.staff[t].request <==> c in s.g.holding && s.g.holding[c] == t
    ensures forall u, c: nat :: 0 <= u < |s.staff| && Has(s.staff[u], c) && c + 1 in s.staff[t].request ==> u == t
  {
    var b := s.staff[t];
    assert BartenderOk(b, nb) && b.plan[..b.got] == b.plan;
    assert forall c: nat :: c + 1 in b.request <==> Has(b, c);
    forall u, c: nat | 0 <= u < |s.staff| && Has(s.staff[u], c) && c + 1 in b.request
      ensures u == t
    {
      HolderIs(s, nb, u, c);
      HolderIs(s, nb, t, c);
    }
  }

  /** An idle bartender holds nothing: everything taken for the last order has been given back. */
  lemma IdleHoldsNothing(s: Bar, nb: nat, t: nat)
    requires Inv(s, nb) && t < |s.staff| && s.staff[t].phase == Idle
    ensures forall c :: c in s.g.holding ==> s.g.holding[c] != t
    ensures t !in s.g.waiting
  {
    assert BartenderOk(s.staff[t], nb);
  }

  /** Bartender t is in the middle of an order and not kept waiting by another. */
  ghost predicate CanMove(s: Bar, t: nat) {
    t < |s.staff| && s.staff[t].phase != Idle &&
    (t in s.g.waiting ==> s.g.waiting[t] !in s.g.holding)
  }

  lemma MoverHasStep(s: Bar, nb: nat, t: nat)
    requires Inv(s, nb) && CanMove(s, t)
    ensures exists step: Step :: step.t == t && Enabled(s, step, nb)
  {
    var b := s.staff[t];
    assert BartenderOk(b, nb);
    if t in s.g.waiting {
      assert Enabled(s, Get(t), nb);
    } else if b.phase == Taking {
      assert Enabled(s, if b.got < |b.plan| then Ask(t) else Mix(t), nb);
    } else if b.phase == Mixing {
      assert Enabled(s, Finish(t), nb);
    } else {
      assert Enabled(s, if b.got > 0 then Drop(t) else Leave(t), nb);
    }
  }

  /**
   * Behind every bartender in the middle of an order there is one that can go on: no reachable state is stuck on
   * bottles.
   */
  lemma {:induction false} NeverStuck(s: Bar, nb: nat, t: nat) returns (u: nat, step: Step)
    requires Inv(s, nb) && t < |s.staff| && s.staff[t].phase != Idle
    ensures CanMove(s, u) && Enabled(s, step, nb) && step.t == u
    ensures Reaches(s.g, t, u)
    decreases if t in s.g.waiting then 1 + nb - s.g.waiting[t] else 0
  {
    if CanMove(s, t) {
      u := t;
      MoverHasStep(s, nb, t);
      step :| step.t == t && Enabled(s, step, nb);
      assert Walk(s.g, t, 0) == Some(u);
    } else {
      var h := s.g.holding[s.g.waiting[t]];
      assert BartenderOk(s.staff[t], nb) && BartenderOk(s.staff[h], nb);
      if h in s.g.waiting {
        HeldBelowWanted(s.staff[h], s.g.waiting[t]);
      }
      u, step := NeverStuck(s, nb, h);
      ReachesOn(s.g, t, h, u);
    }
  }

  lemma ReachesOn(g: Graph<int, nat>, t: int, h: int, u: int)
    requires WaitsFor.Next(g, t) == Some(h) && Reaches(g, h, u)
    ensures Reaches(g, t, u)
  {
    var k: nat :| Walk(g, h, k) == Some(u);
    assert Walk(g, t, 0) == Some(t) && Walk(g, t, 1) == Some(h);
    WalkAdd(g, t, h, 1, k);
  }

  // ---------------------------------------------------------------- how long an order takes

  /** The steps bartender t still has to make before it is idle: asking for, getting and dropping each bottle. */
  function StepsLeft(s: Bar, t: nat): int
    requires t < |s.staff|
  {
    var b := s.staff[t];
    match b.phase
    case Idle => 0
    case Taking => 2 * (|b.plan| - b.got) - (if t in s.g.waiting then 1 else 0) + |b.plan| + 3
    case Mixing => b.got + 2
    case Returning => b.got + 1
  }

  /** Every step of a bartender brings the end of its order one step nearer, and no other bartender puts it off. */
  lemma OneStepNearer(s: Bar, step: Step, nb: nat, t: nat)
    requires Inv(s, nb) && Enabled(s, step, nb) && t < |s.staff| && !(step.Start? && step.t == t)
    ensures |Next(s, step).staff| == |s.staff| && StepsLeft(s, t) >= 0
    ensures StepsLeft(Next(s, step), t) == StepsLeft(s, t) - if step.t == t then 1 else 0
    ensures Next(s, step).staff[t].request == s.staff[t].request && Next(s, step).staff[t].plan == s.staff[t].plan
  {
    assert BartenderOk(s.staff[t], nb);
    hide HoldingOk;
  }

  /** A new order takes three steps for each distinct bottle and three more. */
  lemma OrderTakes(s: Bar, nb: nat, t: nat, request: seq<nat>, sorted: seq<nat>)
    requires Inv(s, nb) && Enabled(s, Start(t, request, sorted), nb)
    ensures var s' := Next(s, Start(t, request, sorted));
      t < |s'.staff| && s'.staff[t].request == request && s'.staff[t].phase == Taking && s'.staff[t].got == 0 &&
      (forall c: nat :: c in s'.staff[t].plan <==> c + 1 in request) && StrictlyAscending(s'.staff[t].plan) &&
      StepsLeft(s', t) == 3 * |s'.staff[t].plan| + 3
  {
    PlanOk(request, sorted, nb);
    hide HoldingOk;
  }

  // ---------------------------------------------------------------- runs

  ghost predicate Run(ss: seq<Bar>, steps: seq<Step>, nb: nat) {
    |ss| == |steps| + 1 && forall i :: 0 <= i < |steps| ==> Moves(ss[i], steps[i], After(ss, i), nb)
  }

  ghost predicate Moves(s: Bar, step: Step, s': Bar, nb: nat) {
    Enabled(s, step, nb) && s' == Next(s, step)
  }

  ghost function After(ss: seq<Bar>, i: nat): Bar
    requires i + 1 < |ss|
  {
    ss[i + 1]
  }

  /** The bar as it opens. */
  function Opening(n: nat): Bar {
    Bar(seq(n, _ => Bartender([], [], 0, Idle)), Graph(map[], map[]))
  }

  /**
   * In every run, with any number of bartenders and bottles: the waits-for graph is acyclic, no request for a bottle
   * sets off the detector, and every mix is exclusive.
   */
  lemma {:induction false} RunSafe(ss: seq<Bar>, steps: seq<Step>, nb: nat, n: nat, k: nat)
    requires Run(ss, steps, nb) && ss[0] == Opening(n) && k < |ss|
    ensures Inv(ss[k], nb) && Acyclic(ss[k].g)
    ensures k < |steps| && steps[k].Ask? ==> !ClosesCycle(ss[k].g, steps[k].t, Wanted(ss[k].staff[steps[k].t]))
  {
    hide Inv, Enabled, Next, Acyclic, ClosesCycle, Wanted;
    if k == 0 {
      OpeningInv(n, nb);
    } else {
      RunSafe(ss, steps, nb, n, k - 1);
      assert Moves(ss[k - 1], steps[k - 1], After(ss, k - 1), nb);
      NextKeepsInv(ss[k - 1], steps[k - 1], nb);
    }
    NoCycle(ss[k], nb);
    if k < |steps| {
      assert Moves(ss[k], steps[k], After(ss, k), nb);
      if steps[k].Ask? {
        DetectorSilent(ss[k], nb, steps[k].t);
      }
    }
  }

  lemma OpeningInv(n: nat, nb: nat)
    ensures Inv(Opening(n), nb)
  {
  }

  /** The steps of bartender t among steps m to n - 1. */
  function StepsOf(steps: seq<Step>, t: nat, m: nat, n: nat): nat
    requires m <= n <= |steps|
  {
    if m == n then 0 else StepsOf(steps, t, m, n - 1) + if steps[n - 1].t == t then 1 else 0
  }

  /**
   * In every run a bartender is done with an order exactly when it has made three steps for each distinct bottle and
   * three more, whatever the others do; that somebody can always make the next step is NeverStuck.
   */
  lemma {:induction false} OrderServed(ss: seq<Bar>, steps: seq<Step>, nb: nat, n0: nat, m: nat, n: nat, t: nat,
                                       request: seq<nat>, sorted: seq<nat>)
    requires Run(ss, steps, nb) && ss[0] == Opening(n0) && m < n < |ss| && steps[m] == Start(t, request, sorted)
    requires forall k :: m < k < n ==> !(steps[k].Start? && steps[k].t == t)
    ensures t < |ss[n].staff| && ss[n].staff[t].request == request
    ensures forall c: nat :: c in ss[n].staff[t].plan <==> c + 1 in request
    ensures StrictlyAscending(ss[n].staff[t].plan)
    ensures StepsLeft(ss[n], t) + StepsOf(steps, t, m + 1, n) == 3 * |ss[n].staff[t].plan| + 3
    ensures ss[n].staff[t].phase == Idle <==> StepsOf(steps, t, m + 1, n) == 3 * |ss[n].staff[t].plan| + 3
  {
    hide Inv, Enabled, Next, StepsLeft, StrictlyAscending, Acyclic, ClosesCycle, Wanted;
    RunSafe(ss, steps, nb, n0, n - 1);
    RunSafe(ss, steps, nb, n0, n);
    assert Moves(ss[n - 1], steps[n - 1], After(ss, n - 1), nb) && After(ss, n - 1) == ss[n];
    if m < n - 1 {
      OrderServed(ss, steps, nb, n0, m, n - 1, t, request, sorted);
      OneStepNearer(ss[n - 1], steps[n - 1], nb, t);
    } else {
      OrderTakes(ss[m], nb, t, request, sorted);
    }
    IdleMeans(ss[n], nb, t);
  }

  lemma IdleMeans(s: Bar, nb: nat, t: nat)
    requires Inv(s, nb) && t < |s.staff|
    ensures StepsLeft(s, t) >= 0 && (s.staff[t].phase == Idle <==> StepsLeft(s, t) == 0)
  {
    assert BartenderOk(s.staff[t], nb);
    hide HoldingOk;
  }
}
