/**
 * What the scheduler's steps do to single threads, and in which order threads come to run: each step moves at most
 * one thread, queues are first come, first served, and a migration counts, takes and ends as it should.
 */
module SchedulerOrder {
  import opened Basics
  import opened Scheduler

  // ---------------------------------------------------------------- each step moves at most one thread

  /** The thread whose list node a step changes. */
  ghost function Mover(s: System, step: Step): Option<Tid>
    requires step.c < |s.cpus|
  {
    var c, cur := step.c, s.cpus[step.c].cur;
    match step
    case Yield(_) => if L(s, RunQ(c)) == [] then None else Some(cur)
    case Sleep(_, _) => Some(cur)
    case Exit(_) => Some(cur)
    case Pick(_) => Head(s, RunQ(c))
    case WakeTake(_, w) => Head(s, Wchan(w))
    case WakePut(_) => Head(s, Wake(c))
    case MigTake(_) => if s.cpus[c].act.Taking? && s.cpus[c].act.todo > 0 then Tail(s, RunQ(c)) else None
    case MigPlace(_) => Head(s, Victims(c))
    case MigPutBack(_) => Head(s, Victims(c))
    case _ => None
  }

  function Head(s: System, id: ListId): Option<Tid> {
    if L(s, id) == [] then None else Some(L(s, id)[0])
  }

  function Tail(s: System, id: ListId): Option<Tid> {
    if L(s, id) == [] then None else Some(Last(L(s, id)))
  }

  /** Where that thread goes. */
  ghost function Destination(s: System, step: Step): Node
    requires step.c < |s.cpus|
  {
    var c := step.c;
    match step
    case Yield(_) => On(RunQ(c))
    case Sleep(_, w) => On(Wchan(w))
    case Exit(_) => On(Zombies(c))
    case WakeTake(_, _) => On(Wake(c))
    case WakePut(_) => if L(s, Wake(c)) == [] then Off else On(RunQ(HomeOf(s, L(s, Wake(c))[0])))
    case MigTake(_) => On(Victims(c))
    case MigPlace(_) =>
      if s.cpus[c].act.Placing? && Head(s, Victims(c)) != Some(s.cpus[c].cur) then On(RunQ(s.cpus[c].act.at))
      else On(Victims(c))
    case MigPutBack(_) => On(RunQ(c))
    case _ => Off
  }

  lemma OneMover(s: System, step: Step, t: Tid)
    requires Inv(s) && Enabled(s, step) && t in s.threads && t in Next(s, step).threads
    ensures Next(s, step).threads[t].node ==
      if Mover(s, step) == Some(t) then Destination(s, step) else s.threads[t].node
  {
    hide Linked, HomeOk, ActivityOk;
    ListedThreads(s);
    assert CurrentOk(s, step.c);
    if step.MigPlace? {
      VictimToPlace(s, step.c);
    } else if step.MigTake? && s.cpus[step.c].act.todo > 0 {
      QueueToTake(s, step.c);
    }
  }

  /** No step touches another CPU's record, and a CPU's current thread changes only when it picks one. */
  lemma OwnCpuOnly(s: System, step: Step)
    requires Inv(s) && Enabled(s, step)
    ensures var s' := Next(s, step); |s'.cpus| == |s.cpus|
    ensures var s' := Next(s, step); forall d :: 0 <= d < |s.cpus| && d != step.c ==> s'.cpus[d] == s.cpus[d]
    ensures var s' := Next(s, step); !step.Pick? ==> s'.cpus[step.c].cur == s.cpus[step.c].cur
  {
    hide Linked, HomeOk, ActivityOk;
    ListedThreads(s);
    if step.MigPlace? {
      VictimToPlace(s, step.c);
    } else if step.MigTake? && s.cpus[step.c].act.todo > 0 {
      QueueToTake(s, step.c);
    }
  }

  /** The thread that runs next is the one at the head of the run queue. */
  lemma PickRunsHead(s: System, c: nat)
    requires Inv(s) && Enabled(s, Pick(c))
    ensures var s', t := Next(s, Pick(c)), L(s, RunQ(c))[0];
      c < |s'.cpus| && s'.cpus[c].cur == t && s'.cpus[c].mode == Run && L(s', RunQ(c)) == L(s, RunQ(c))[1..] &&
      t in s'.threads && s'.threads[t].state == Running
  {
    hide Linked, HomeOk, ActivityOk;
    ListedThreads(s);
  }

  /** A thread belongs to the CPU it belonged to, unless a migration places it on another; the current thread stays. */
  lemma HomeChanges(s: System, step: Step, t: Tid)
    requires Inv(s) && Enabled(s, step) && t in s.threads && t in Next(s, step).threads
    ensures Next(s, step).threads[t].tcpu ==
      if step.MigPlace? && Head(s, Victims(step.c)) == Some(t) && t != s.cpus[step.c].cur then s.cpus[step.c].act.at
      else s.threads[t].tcpu
  {
    hide Linked, ActivityOk;
    ListedThreads(s);
    HeadsHome(s);
    assert CurrentOk(s, step.c);
    if step.MigPlace? {
      VictimToPlace(s, step.c);
    } else if step.MigTake? && s.cpus[step.c].act.todo > 0 {
      QueueToTake(s, step.c);
    }
    hide HomeOk;
  }

  /** What becomes of a thread: it sleeps, exits and runs by these steps only, and by each of them. */
  lemma LifeCycle(s: System, step: Step, t: Tid)
    requires Inv(s) && Enabled(s, step) && t in s.threads && t in Next(s, step).threads
    ensures var st, st', cur := s.threads[t].state, Next(s, step).threads[t].state, s.cpus[step.c].cur;
      st' == Zombie <==> st == Zombie || (step.Exit? && t == cur)
    ensures var st, st', cur := s.threads[t].state, Next(s, step).threads[t].state, s.cpus[step.c].cur;
      st' == Sleeping <==>
        (st == Sleeping && !(step.WakePut? && Head(s, Wake(step.c)) == Some(t))) || (step.Sleep? && t == cur)
    ensures var st, st', cur := s.threads[t].state, Next(s, step).threads[t].state, s.cpus[step.c].cur;
      var stops := step.Sleep? || step.Exit? || (step.Yield? && L(s, RunQ(step.c)) != []);
      st' == Running <==> (step.Pick? && Head(s, RunQ(step.c)) == Some(t)) || (st == Running && !(t == cur && stops))
  {
    assert step.c < |s.cpus|;
    hide Inv, Enabled, Next, Destination, StateAt;
    OneMover(s, step, t);
    NextKeepsInv(s, step);
    StateByNode(s, t);
    StateByNode(Next(s, step), t);
    if Mover(s, step).Some? {
      MoverBefore(s, step);
      DestinationState(s, step);
    }
  }

  lemma MoverBefore(s: System, step: Step)
    requires Inv(s) && Enabled(s, step) && Mover(s, step).Some?
    ensures Mover(s, step).value in s.threads
    ensures s.threads[Mover(s, step).value].state ==
      if step.Yield? || step.Sleep? || step.Exit? then Running
      else if step.WakeTake? || step.WakePut? then Sleeping
      else Ready
  {
    assert step.c < |s.cpus|;
    hide Inv, Enabled, Mover;
    MoverSits(s, step);
    StateByNode(s, Mover(s, step).value);
  }

  lemma StateByNode(s: System, t: Tid)
    requires Inv(s) && t in s.threads
    ensures s.threads[t].state == StateAt(s.threads[t].node)
  {
    assert HomeOk(s, t);
  }

  lemma DestinationState(s: System, step: Step)
    requires Inv(s) && Enabled(s, step) && Mover(s, step).Some?
    ensures StateAt(Destination(s, step)) ==
      match step
      case Sleep(_, _) => Sleeping
      case WakeTake(_, _) => Sleeping
      case Exit(_) => Zombie
      case Pick(_) => Running
      case _ => Ready
  {
    hide Linked, ThreadsOk, ActivityOk;
  }

  /** A step's mover is running, or sits where the step takes it from. */
  lemma MoverSits(s: System, step: Step)
    requires Inv(s) && Enabled(s, step) && Mover(s, step).Some?
    ensures Mover(s, step).value in s.threads
    ensures var n := s.threads[Mover(s, step).value].node;
      if step.Yield? || step.Sleep? || step.Exit? then n == Off
      else n == On(match step
                   case Pick(c) => RunQ(c)
                   case WakeTake(_, w) => Wchan(w)
                   case WakePut(c) => Wake(c)
                   case MigTake(c) => RunQ(c)
                   case _ => Victims(step.c))
  {
    hide HomeOk, ActivityOk;
    assert CurrentOk(s, step.c);
    ListedThreads(s);
    forall id | L(s, id) != []
      ensures s.threads[L(s, id)[0]].node == On(id) && s.threads[Last(L(s, id))].node == On(id)
    {
      assert L(s, id)[0] in L(s, id) && Last(L(s, id)) in L(s, id);
    }
  }

  // ---------------------------------------------------------------- queues are first come, first served

  /** The thread a step adds to list id. */
  ghost function Joiner(s: System, step: Step, id: ListId): Option<Tid>
    requires step.c < |s.cpus|
  {
    if step.Fork? && id == RunQ(step.home) then Some(step.t)
    else if Mover(s, step).Some? && Destination(s, step) == On(id) then Mover(s, step)
    else None
  }

  /** A step takes a thread off list id. */
  ghost predicate Serves(s: System, step: Step, id: ListId) {
    L(s, id) != [] &&
    match step
    case Pick(c) => id == RunQ(c)
    case Exorcise(c) => id == Zombies(c)
    case WakeTake(_, w) => id == Wchan(w)
    case WakePut(c) => id == Wake(c)
    case _ => false
  }

  ghost predicate Robs(s: System, step: Step, id: ListId) {
    step.MigTake? && id == RunQ(step.c) && step.c < |s.cpus| && s.cpus[step.c].act.Taking? &&
    s.cpus[step.c].act.todo > 0
  }

  /** What the steps do to a list that is not a migration's own. */
  ghost predicate QueueMoves(s: System, step: Step, id: ListId, l: seq<Tid>, l': seq<Tid>)
    requires step.c < |s.cpus|
  {
    if Joiner(s, step, id).Some? then l' == l + [Joiner(s, step, id).value]
    else if Serves(s, step, id) then l != [] && l' == l[1..]
    else if Robs(s, step, id) then l != [] && l' == l[..|l| - 1]
    else l' == l
  }

  lemma MigrationQueue(s: System, step: Step, id: ListId)
    requires Inv(s) && Enabled(s, step) && !id.Victims?
    requires step.MigTake? || step.MigPlace? || step.MigPutBack?
    ensures QueueMoves(s, step, id, L(s, id), L(Next(s, step), id))
  {
    hide Linked, ThreadsOk;
    if step.MigPlace? {
      VictimToPlace(s, step.c);
    } else if step.MigTake? && s.cpus[step.c].act.todo > 0 {
      QueueToTake(s, step.c);
    }
    hide ActivityOk;
  }

  lemma ThreadQueue(s: System, step: Step, id: ListId)
    requires Inv(s) && Enabled(s, step) && !id.Victims?
    requires step.Fork? || step.Yield? || step.Sleep? || step.Exit? || step.Pick? || step.Exorcise?
    ensures QueueMoves(s, step, id, L(s, id), L(Next(s, step), id))
  {
    hide Linked, ThreadsOk, ActivityOk;
  }

  lemma JoinedOnly(s: System, step: Step, id: ListId)
    requires step.c < |s.cpus| && !id.Victims?
    ensures Joiner(s, step, id).Some? ==> !Serves(s, step, id) && !Robs(s, step, id)
  {
  }

  /** Threads join at the end and are served from the head; only a migration takes its victims from the end. */
  lemma QueueAfter(s: System, step: Step, id: ListId)
    requires Inv(s) && Enabled(s, step) && !id.Victims?
    ensures QueueMoves(s, step, id, L(s, id), L(Next(s, step), id))
    ensures Joiner(s, step, id).Some? ==> !Serves(s, step, id) && !Robs(s, step, id)
  {
    hide Linked, ThreadsOk, ActivityOk;
    JoinedOnly(s, step, id);
    ListedThreads(s);
    if step.MigTake? || step.MigPlace? || step.MigPutBack? {
      MigrationQueue(s, step, id);
      hide Next, Enabled, QueueMoves;
    } else if step.Fork? || step.Yield? || step.Sleep? || step.Exit? || step.Pick? || step.Exorcise? {
      ThreadQueue(s, step, id);
      hide Next, Enabled, QueueMoves;
    }
  }

  /** Whoever leaves a run queue or wait channel without a migration was at its head. */
  lemma OnlyHeadLeaves(s: System, step: Step, id: ListId, i: nat)
    requires Inv(s) && Enabled(s, step) && !id.Victims? && i < |L(s, id)|
    requires L(s, id)[i] !in L(Next(s, step), id)
    ensures if Robs(s, step, id) then i == |L(s, id)| - 1 else i == 0 && Serves(s, step, id)
  {
    QueueAfter(s, step, id);
    hide Next, Enabled, Inv, Joiner, Serves, Robs;
    StillThere(L(s, id), i);
  }

  lemma StillThere(l: seq<Tid>, i: nat)
    requires i < |l|
    ensures i > 0 ==> l[i] in l[1..]
    ensures i < |l| - 1 ==> l[i] in l[..|l| - 1]
  {
    if i > 0 {
      assert l[1..][i - 1] == l[i];
    }
    if i < |l| - 1 {
      assert l[..|l| - 1][i] == l[i];
    }
  }

  // ---------------------------------------------------------------- how long a thread waits

  /** The steps m to n - 1 that serve list id. */
  ghost function Services(ss: seq<System>, steps: seq<Step>, id: ListId, m: nat, n: nat): nat
    requires m <= n <= |steps| < |ss|
  {
    if m == n then 0
    else Services(ss, steps, id, m, n - 1) + if Serves(ss[n - 1], steps[n - 1], id) then 1 else 0
  }

  lemma ServedOnce(s: System, step: Step, id: ListId, t: Tid)
    requires Inv(s) && Enabled(s, step) && !id.Victims? && t in L(s, id) && t in L(Next(s, step), id)
    ensures Place(L(Next(s, step), id), t) + (if Serves(s, step, id) then 1 else 0) == Place(L(s, id), t)
  {
    QueueAfter(s, step, id);
    NextLinked(s, step);
    var l, l' := L(s, id), L(Next(s, step), id);
    assert Distinct(l) && Distinct(l');
    hide Next, Enabled, Inv, Joiner, Serves, Robs, Linked, Place, Distinct;
    TurnPlace(l, Serves(s, step, id), l', t);
  }

  /**
   * In every run: as long as a thread stays on a run queue or wait channel, whatever joins, every time the list is
   * served it is one place nearer the head, and at no other time does it move.
   */
  lemma {:induction false} FirstComeFirstServed(ss: seq<System>, steps: seq<Step>, n0: nat, m: nat, n: nat, id: ListId,
                                                t: Tid)
    requires Execution(ss, steps) && ss[0] == Boot(n0) && m <= n <= |steps| && !id.Victims?
    requires forall k :: m <= k <= n ==> t in L(ss[k], id)
    ensures Place(L(ss[n], id), t) + Services(ss, steps, id, m, n) == Place(L(ss[m], id), t)
  {
    hide Inv, Enabled, Next, Boot, Serves, Place, L;
    if m < n {
      FirstComeFirstServed(ss, steps, n0, m, n - 1, id, t);
      ReachableInv(ss, steps, n0, n - 1);
      assert Becomes(ss[n - 1], steps[n - 1], StateAfter(ss, n - 1));
      ServedOnce(ss[n - 1], steps[n - 1], id, t);
    }
  }

  /** So a thread at place i of a run queue that no migration takes runs when the queue has been served i times more. */
  lemma RunsInTurn(ss: seq<System>, steps: seq<Step>, n0: nat, m: nat, n: nat, c: nat, t: Tid)
    requires Execution(ss, steps) && ss[0] == Boot(n0) && m <= n < |steps|
    requires forall k :: m <= k <= n ==> t in L(ss[k], RunQ(c))
    requires steps[n] == Pick(c) && Services(ss, steps, RunQ(c), m, n) == Place(L(ss[m], RunQ(c)), t)
    ensures c < |ss[n + 1].cpus| && ss[n + 1].cpus[c].cur == t && ss[n + 1].cpus[c].mode == Run
  {
    hide Inv, Enabled, Next, Boot, Serves, Place;
    FirstComeFirstServed(ss, steps, n0, m, n, RunQ(c), t);
    ReachableInv(ss, steps, n0, n);
    assert Becomes(ss[n], steps[n], StateAfter(ss, n));
    PickRunsHead(ss[n], c);
  }

  /** And a thread asleep at place i of a wait channel is woken by the i+1st wakeup there. */
  lemma WokenInTurn(ss: seq<System>, steps: seq<Step>, n0: nat, m: nat, n: nat, c: nat, w: nat, t: Tid)
    requires Execution(ss, steps) && ss[0] == Boot(n0) && m <= n < |steps|
    requires forall k :: m <= k <= n ==> t in L(ss[k], Wchan(w))
    requires steps[n] == WakeTake(c, w) && Services(ss, steps, Wchan(w), m, n) == Place(L(ss[m], Wchan(w)), t)
    ensures t in ss[n + 1].threads && ss[n + 1].threads[t].node == On(Wake(c))
  {
    hide Inv, Enabled, Next, Boot, Serves, Place, Linked, Mover, Destination;
    FirstComeFirstServed(ss, steps, n0, m, n, Wchan(w), t);
    ReachableInv(ss, steps, n0, n);
    ReachableInv(ss, steps, n0, n + 1);
    assert Becomes(ss[n], steps[n], StateAfter(ss, n));
    WokenHead(ss[n], c, w);
  }

  lemma WokenHead(s: System, c: nat, w: nat)
    requires Inv(s) && Enabled(s, WakeTake(c, w))
    ensures L(s, Wchan(w)) != []
    ensures var t, s' := L(s, Wchan(w))[0], Next(s, WakeTake(c, w));
      t in s'.threads && s'.threads[t].node == On(Wake(c))
  {
    hide Linked, HomeOk, ActivityOk;
    ListedThreads(s);
  }

  /** When a CPU locks its run queue to pick a thread, and when it goes idle. */
  lemma ModeAfter(s: System, step: Step)
    requires Inv(s) && Enabled(s, step)
    ensures |Next(s, step).cpus| == |s.cpus|
    ensures Next(s, step).cpus[step.c].mode ==
      match step
      case Yield(c) => if L(s, RunQ(c)) == [] then Run else Picking
      case Sleep(_, _) => Picking
      case Exit(_) => Picking
      case Unidle(_) => Picking
      case Pick(_) => Run
      case GoIdle(_) => Idle
      case _ => s.cpus[step.c].mode
  {
    hide Linked, HomeOk, ActivityOk;
    ListedThreads(s);
    if step.MigPlace? {
      VictimToPlace(s, step.c);
    } else if step.MigTake? && s.cpus[step.c].act.todo > 0 {
      QueueToTake(s, step.c);
    }
  }

  // ---------------------------------------------------------------- migration under interleaving

  /** Taking a victim keeps the caller's queue followed by the victims as it was. */
  lemma TakingKeepsOrder(s: System, c: nat)
    requires Inv(s) && Enabled(s, MigTake(c))
    ensures var s' := Next(s, MigTake(c)); L(s', RunQ(c)) + L(s', Victims(c)) == L(s, RunQ(c)) + L(s, Victims(c))
    ensures s.cpus[c].act.todo > 0 ==> |L(Next(s, MigTake(c)), RunQ(c))| == |L(s, RunQ(c))| - 1
  {
    hide Linked, ThreadsOk, ActivityOk;
    if s.cpus[c].act.todo > 0 {
      QueueToTake(s, c);
      assert L(s, RunQ(c)) == L(s, RunQ(c))[..|L(s, RunQ(c))| - 1] + [Last(L(s, RunQ(c)))];
    }
  }

  /** And so does putting one back. */
  lemma ReturningKeepsOrder(s: System, c: nat)
    requires Inv(s) && Enabled(s, MigPutBack(c))
    ensures var s' := Next(s, MigPutBack(c)); L(s', RunQ(c)) + L(s', Victims(c)) == L(s, RunQ(c)) + L(s, Victims(c))
    ensures |L(Next(s, MigPutBack(c)), RunQ(c))| == |L(s, RunQ(c))| + 1
  {
    hide Linked, ThreadsOk, ActivityOk;
    assert L(s, Victims(c)) == [L(s, Victims(c))[0]] + L(s, Victims(c))[1..];
  }

  /** The victims a CPU holds change in its own migration only. */
  lemma VictimsAfter(s: System, step: Step, c: nat)
    requires Inv(s) && Enabled(s, step) && c < |s.cpus|
    ensures step.c != c || !(step.MigTake? || step.MigPlace? || step.MigPutBack?) ==>
      L(Next(s, step), Victims(c)) == L(s, Victims(c))
    ensures step == MigPutBack(c) ==> |L(Next(s, step), Victims(c))| == |L(s, Victims(c))| - 1
  {
    hide Linked, HomeOk, ActivityOk;
    ListedThreads(s);
    if step.MigPlace? {
      VictimToPlace(s, step.c);
    } else if step.MigTake? && s.cpus[step.c].act.todo > 0 {
      QueueToTake(s, step.c);
    }
  }

  /** The stages still before a migration, and the passes left in the present one. */
  function Stage(act: Activity): nat {
    match act
    case Counting(_, _, _) => 4
    case Taking(_, _, _) => 3
    case Placing(_, _, _) => 2
    case Returning => 1
    case _ => 0
  }

  function PassesLeft(s: System, c: nat): int
    requires c < |s.cpus|
  {
    match s.cpus[c].act
    case Counting(i, _, _) => |s.cpus| - i
    case Taking(todo, _, _) => todo
    case Placing(at, left, _) => |s.cpus| - at + left
    case Returning => |L(s, Victims(c))|
    case _ => 0
  }

  predicate IsMigration(step: Step) {
    step.MigCount? || step.MigDecide? || step.MigTake? || step.MigPlace? || step.MigNext? || step.MigDone? ||
    step.MigPutBack? || step.MigEnd?
  }

  /**
   * A migration ends: each pass of one of its loops is one of the passes left, each end of a loop leads to the next
   * stage, or out of the migration, and what other CPUs and wakeups do in between makes no difference.
   */
  lemma MigrationProgress(s: System, step: Step, c: nat)
    requires Inv(s) && Enabled(s, step) && c < |s.cpus| && |Next(s, step).cpus| == |s.cpus| && step != MigStart(c)
    ensures PassesLeft(s, c) >= 0
    ensures Stage(Next(s, step).cpus[c].act) != Stage(s.cpus[c].act) ==>
      step.c == c && IsMigration(step) && Stage(Next(s, step).cpus[c].act) < Stage(s.cpus[c].act)
    ensures Stage(Next(s, step).cpus[c].act) == Stage(s.cpus[c].act) ==>
      PassesLeft(Next(s, step), c) == PassesLeft(s, c) - if step.c == c && IsMigration(step) then 1 else 0
  {
    VictimsAfter(s, step, c);
    if step.c == c && IsMigration(step) {
      hide IsMigration;
      OwnMigration(s, step);
    } else {
      ActivityStays(s, step, c);
      hide Next, Enabled, Linked, ThreadsOk;
      assert ActivityOk(s, c);
    }
  }

  lemma OwnMigration(s: System, step: Step)
    requires Inv(s) && Enabled(s, step) && IsMigration(step) && |Next(s, step).cpus| == |s.cpus|
    ensures PassesLeft(s, step.c) >= 0
    ensures Stage(Next(s, step).cpus[step.c].act) <= Stage(s.cpus[step.c].act)
    ensures Stage(Next(s, step).cpus[step.c].act) == Stage(s.cpus[step.c].act) ==>
      PassesLeft(Next(s, step), step.c) == PassesLeft(s, step.c) - 1
  {
    assert ActivityOk(s, step.c);
    VictimsAfter(s, step, step.c);
    hide Linked, ThreadsOk, ActivityOk;
    if step.MigPlace? {
      VictimToPlace(s, step.c);
    } else if step.MigTake? && s.cpus[step.c].act.todo > 0 {
      QueueToTake(s, step.c);
    }
  }

  /** No other step changes what a CPU's migration has in hand. */
  lemma ActivityStays(s: System, step: Step, c: nat)
    requires Inv(s) && Enabled(s, step) && c < |s.cpus| && step != MigStart(c) && !(step.c == c && IsMigration(step))
    ensures |Next(s, step).cpus| == |s.cpus|
    ensures Stage(Next(s, step).cpus[c].act) == Stage(s.cpus[c].act)
    ensures Stage(s.cpus[c].act) > 0 ==> Next(s, step).cpus[c].act == s.cpus[c].act
  {
    OwnCpuOnly(s, step);
    if step.c == c {
      hide Linked, ThreadsOk, ActivityOk;
    } else {
      hide Linked, ThreadsOk, ActivityOk, Next, Enabled;
    }
  }

  /** The decision after counting: with less than its share a CPU stops, else it takes what it has above the share. */
  lemma Decision(s: System, c: nat)
    requires Inv(s) && Enabled(s, MigDecide(c))
    ensures c < |Next(s, MigDecide(c)).cpus|
    ensures forall share: nat :: IsShare(share, s.cpus[c].act.total, |s.cpus|) ==>
      var my := s.cpus[c].act.my;
      Next(s, MigDecide(c)).cpus[c].act == if my < share then Normal else Taking(my - share, my - share, share)
  {
    RoundUpIsShare(s.cpus[c].act.total, |s.cpus|);
    hide Linked, ThreadsOk, ActivityOk, IsShare;
  }

  /** When the victims are taken, as many of them are to be placed, and no receiver is to get beyond the share. */
  lemma TakingDone(s: System, c: nat)
    requires Inv(s) && Enabled(s, MigTake(c)) && s.cpus[c].act.todo == 0
    ensures c < |Next(s, MigTake(c)).cpus|
    ensures Next(s, MigTake(c)).cpus[c].act == Placing(0, |L(s, Victims(c))|, s.cpus[c].act.share)
  {
    assert ActivityOk(s, c);
    hide Linked, ThreadsOk;
  }

  // ---------------------------------------------------------------- what a migration counts

  /** The threads on the run queues below i. */
  function QueuedBelow(s: System, i: nat): nat {
    if i == 0 then 0 else QueuedBelow(s, i - 1) + |L(s, RunQ(i - 1))|
  }

  ghost predicate SameLengths(s: System, s': System) {
    |s'.cpus| == |s.cpus| && forall d :: 0 <= d < |s.cpus| ==> |L(s', RunQ(d))| == |L(s, RunQ(d))|
  }

  /** While the lengths of the run queues do not change, what a CPU has counted is what is there. */
  ghost predicate CountedRight(s: System, c: nat)
    requires c < |s.cpus|
  {
    s.cpus[c].act.Counting? ==>
      var act := s.cpus[c].act;
      act.i <= |s.cpus| && act.total == QueuedBelow(s, act.i) && act.my == if c < act.i then |L(s, RunQ(c))| else 0
  }

  lemma {:induction false} SameBelow(s: System, s': System, i: nat)
    requires SameLengths(s, s') && i <= |s.cpus|
    ensures QueuedBelow(s', i) == QueuedBelow(s, i)
  {
    if i > 0 {
      SameBelow(s, s', i - 1);
    }
  }

  lemma CountingStep(s: System, step: Step, c: nat)
    requires Inv(s) && Enabled(s, step) && c < |s.cpus| && CountedRight(s, c) && SameLengths(s, Next(s, step))
    ensures c < |Next(s, step).cpus| && CountedRight(Next(s, step), c)
  {
    hide Linked, ThreadsOk, IsMigration;
    OwnCpuOnly(s, step);
    if step == MigCount(c) {
      CountOne(s, c);
    } else if step == MigStart(c) {
      Started(s, c);
    } else if step.c == c && IsMigration(step) {
      CountingOver(s, step);
    } else {
      ActivityStays(s, step, c);
      assert ActivityOk(s, c);
      hide Next, Enabled, ActivityOk;
      if s.cpus[c].act.Counting? {
        SameBelow(s, Next(s, step), s.cpus[c].act.i);
      }
    }
  }

  lemma CountOne(s: System, c: nat)
    requires Inv(s) && Enabled(s, MigCount(c)) && CountedRight(s, c)
    ensures c < |Next(s, MigCount(c)).cpus| && CountedRight(Next(s, MigCount(c)), c)
  {
    hide Linked, ThreadsOk, ActivityOk;
    var s' := Next(s, MigCount(c));
    assert forall d: nat :: L(s', RunQ(d)) == L(s, RunQ(d));
    SameBelow(s, s', s.cpus[c].act.i + 1);
  }

  lemma CountingOver(s: System, step: Step)
    requires Inv(s) && Enabled(s, step) && IsMigration(step) && !step.MigCount?
    ensures step.c < |Next(s, step).cpus| && !Next(s, step).cpus[step.c].act.Counting?
  {
    hide Linked, ThreadsOk, ActivityOk;
  }

  lemma {:induction false} CountedInRun(ss: seq<System>, steps: seq<Step>, n0: nat, m: nat, n: nat, c: nat)
    requires Execution(ss, steps) && ss[0] == Boot(n0) && m < n <= |steps| && steps[m] == MigStart(c)
    requires forall k :: m <= k < n ==> SameLengths(ss[k], StateAfter(ss, k))
    ensures c < |ss[n].cpus| && CountedRight(ss[n], c)
  {
    hide Inv, Next, Boot, SameLengths, Enabled, CountedRight;
    ReachableInv(ss, steps, n0, n - 1);
    assert Becomes(ss[n - 1], steps[n - 1], StateAfter(ss, n - 1)) && StateAfter(ss, n - 1) == ss[n];
    assert SameLengths(ss[n - 1], StateAfter(ss, n - 1));
    if m < n - 1 {
      CountedInRun(ss, steps, n0, m, n - 1, c);
      CountingStep(ss[n - 1], steps[n - 1], c);
    } else {
      Started(ss[m], c);
    }
  }

  lemma CountedAll(s: System, c: nat)
    requires Enabled(s, MigDecide(c)) && CountedRight(s, c)
    ensures s.cpus[c].act.total == QueuedBelow(s, |s.cpus|) && s.cpus[c].act.my == |L(s, RunQ(c))|
  {
  }

  /**
   * In every run, whatever other CPUs do: if no run queue changes its length between the start of a migration and its
   * decision, the decision is by the caller's queue and its share of all the queued threads.
   */
  lemma DecidesByShare(ss: seq<System>, steps: seq<Step>, n0: nat, m: nat, n: nat, c: nat, share: nat)
    requires Execution(ss, steps) && ss[0] == Boot(n0) && m < n < |steps| && steps[m] == MigStart(c)
    requires forall k :: m <= k < n ==> SameLengths(ss[k], StateAfter(ss, k))
    requires steps[n] == MigDecide(c) && IsShare(share, QueuedBelow(ss[n], |ss[n].cpus|), |ss[n].cpus|)
    ensures c < |ss[n + 1].cpus|
    ensures var my := |L(ss[n], RunQ(c))|;
      ss[n + 1].cpus[c].act == if my < share then Normal else Taking(my - share, my - share, share)
  {
    hide Inv, Next, Boot, SameLengths, Enabled, CountedRight, IsShare, QueuedBelow;
    CountedInRun(ss, steps, n0, m, n, c);
    ReachableInv(ss, steps, n0, n);
    assert Becomes(ss[n], steps[n], StateAfter(ss, n)) && StateAfter(ss, n) == ss[n + 1];
    CountedAll(ss[n], c);
    Decision(ss[n], c);
  }

  lemma Started(s: System, c: nat)
    requires Inv(s) && Enabled(s, MigStart(c))
    ensures c < |Next(s, MigStart(c)).cpus| && CountedRight(Next(s, MigStart(c)), c)
  {
    hide Linked, ThreadsOk, ActivityOk;
  }

  // ---------------------------------------------------------------- nobody gets stuck

  /** A CPU inside thread_switch can go on at once. */
  function SwitchOn(s: System, d: nat): Step { if L(s, RunQ(d)) == [] then GoIdle(d) else Pick(d) }

  /** Every CPU can take a step, or needs a run queue that a CPU inside thread_switch has locked and can let go of. */
  lemma CanGoOn(s: System, c: nat) returns (step: Step)
    requires Inv(s) && c < |s.cpus|
    ensures Enabled(s, step) && (step.c == c || s.cpus[step.c].mode == Picking)
  {
    assert ActivityOk(s, c);
    hide Linked, ActivityOk, CurrentOk, HomeOk;
    var cpu := s.cpus[c];
    match cpu.act
    case Normal => step := if cpu.mode == Run then Yield(c) else if cpu.mode == Idle then Unidle(c) else SwitchOn(s, c);
    case Waking =>
      step := WakePut(c);
      if L(s, Wake(c)) != [] {
        WakeHome(s, c);
        step := Unless(s, HomeOf(s, L(s, Wake(c))[0]), step);
      }
    case _ => step := MigrationCanGoOn(s, c);
  }

  lemma MigrationCanGoOn(s: System, c: nat) returns (step: Step)
    requires Inv(s) && c < |s.cpus| && Stage(s.cpus[c].act) > 0
    ensures Enabled(s, step) && (step.c == c || s.cpus[step.c].mode == Picking)
  {
    assert ActivityOk(s, c);
    hide Linked, ThreadsOk, ActivityOk, L;
    match s.cpus[c].act
    case Counting(i, _, _) => step := if i < |s.cpus| then Unless(s, i, MigCount(c)) else MigDecide(c);
    case Taking(_, _, _) => step := MigTake(c);
    case Placing(at, left, bound) =>
      step := if at == |s.cpus| || left == 0 then MigDone(c)
              else Unless(s, at, if at == c || |L(s, RunQ(at))| >= bound then MigNext(c) else MigPlace(c));
    case Returning => step := if L(s, Victims(c)) == [] then MigEnd(c) else MigPutBack(c);
  }

  function Unless(s: System, d: nat, step: Step): Step {
    if Unlocked(s, d) then step else SwitchOn(s, d)
  }

  lemma WakeHome(s: System, c: nat)
    requires Inv(s) && L(s, Wake(c)) != []
    ensures HomeOf(s, L(s, Wake(c))[0]) < |s.cpus|
  {
    var t := L(s, Wake(c))[0];
    assert t in L(s, Wake(c)) && HomeOk(s, t);
  }
}
