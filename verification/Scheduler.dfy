/**
 * Threads over many CPUs, as a transition system whose steps are the sections the run-queue and wait-channel
 * spinlocks make atomic.  Thread structures live on intrusive lists, so a thread has one list node only.
 */
module Scheduler {
  import opened Basics

  type Tid = int

  /** The lists a thread's node can be on; Victims and Wake are the private lists of migration and wakeup. */
  datatype ListId = RunQ(c: nat) | Wchan(w: nat) | Zombies(c: nat) | Victims(c: nat) | Wake(c: nat)

  /** A thread's list node: linked into no list, or into one. */
  datatype Node = Off | On(id: ListId)

  datatype TState = Ready | Running | Sleeping | Zombie

  /** Run: executing its current thread.  Picking: inside thread_switch, run queue locked.  Idle: waiting, unlocked. */
  datatype Mode = Run | Picking | Idle

  /**
   * What a CPU is in the middle of with interrupts off: moving threads off a wait channel, or one of the stages of
   * thread_consider_migration with its local variables.
   */
  datatype Activity =
    | Normal
    | Waking
    | Counting(i: nat, my: nat, total: nat)
    | Taking(todo: nat, send: nat, share: nat)
    | Placing(at: nat, left: nat, bound: nat)
    | Returning

  datatype Cpu = Cpu(cur: Tid, mode: Mode, act: Activity)

  datatype Thread = Thread(node: Node, tcpu: nat, state: TState)

  datatype System = System(cpus: seq<Cpu>, threads: map<Tid, Thread>, lists: map<ListId, seq<Tid>>)

  function L(s: System, id: ListId): seq<Tid> {
    if id in s.lists then s.lists[id] else []
  }

  // ---------------------------------------------------------------- list operations

  /** threadlist_addtail, with the thread's CPU and state set in the same locked section. */
  function Append(s: System, id: ListId, t: Tid, tcpu: nat, state: TState): System {
    s.(lists := s.lists[id := L(s, id) + [t]], threads := s.threads[t := Thread(On(id), tcpu, state)])
  }

  /** threadlist_addhead */
  function Prepend(s: System, id: ListId, t: Tid, tcpu: nat, state: TState): System {
    s.(lists := s.lists[id := [t] + L(s, id)], threads := s.threads[t := Thread(On(id), tcpu, state)])
  }

  /** Takes thread t's node off list id, which holds l afterwards. */
  function Unlink(s: System, id: ListId, t: Tid, l: seq<Tid>): System
    requires t in s.threads
  {
    s.(lists := s.lists[id := l], threads := s.threads[t := s.threads[t].(node := Off)])
  }

  /** threadlist_remhead */
  function RemHead(s: System, id: ListId): System
    requires L(s, id) != [] && L(s, id)[0] in s.threads
  {
    Unlink(s, id, L(s, id)[0], L(s, id)[1..])
  }

  /** threadlist_remtail */
  function RemTail(s: System, id: ListId): System
    requires L(s, id) != [] && Last(L(s, id)) in s.threads
  {
    Unlink(s, id, Last(L(s, id)), L(s, id)[..|L(s, id)| - 1])
  }

  function Last(l: seq<Tid>): Tid
    requires l != []
  {
    l[|l| - 1]
  }

  function SetCpu(s: System, c: nat, cpu: Cpu): System
    requires c < |s.cpus|
  {
    s.(cpus := s.cpus[c := cpu])
  }

  /** The lists and the nodes agree: each thread is on at most one list, once, and its node says which. */
  ghost predicate Linked(s: System) {
    (forall id :: Distinct(L(s, id))) &&
    (forall id, t :: t in L(s, id) ==> t in s.threads && s.threads[t].node == On(id)) &&
    (forall t :: t in s.threads && s.threads[t].node.On? ==> t in L(s, s.threads[t].node.id))
  }

  /** The state a thread is in, by where its node is. */
  function StateAt(n: Node): TState {
    match n
    case Off => Running
    case On(RunQ(_)) => Ready
    case On(Victims(_)) => Ready
    case On(Wchan(_)) => Sleeping
    case On(Wake(_)) => Sleeping
    case On(Zombies(_)) => Zombie
  }

  /** Queues of a CPU hold that CPU's threads only. */
  ghost predicate HomeOk(s: System, t: Tid)
    requires t in s.threads
  {
    var th := s.threads[t];
    th.tcpu < |s.cpus| && th.state == StateAt(th.node) &&
    (th.node.On? && (th.node.id.RunQ? || th.node.id.Victims? || th.node.id.Zombies?) ==> th.node.id.c == th.tcpu) &&
    (th.node == Off ==> s.cpus[th.tcpu].cur == t && s.cpus[th.tcpu].mode == Run)
  }

  ghost predicate CurrentOk(s: System, c: nat)
    requires c < |s.cpus|
  {
    var t := s.cpus[c].cur;
    t in s.threads && s.threads[t].tcpu == c && (s.cpus[c].mode == Run <==> s.threads[t].node == Off)
  }

  predicate HasVictims(act: Activity) {
    act.Taking? || act.Placing? || act.Returning?
  }

  /** The private lists and local variables of a CPU's activity. */
  ghost predicate ActivityOk(s: System, c: nat)
    requires c < |s.cpus|
  {
    (s.cpus[c].act != Normal ==> s.cpus[c].mode != Picking) &&
    (!s.cpus[c].act.Waking? ==> L(s, Wake(c)) == []) &&
    (!HasVictims(s.cpus[c].act) ==> L(s, Victims(c)) == []) &&
    match s.cpus[c].act
    case Normal => true
    case Waking => true
    case Returning => true
    case Counting(i, my, total) =>
      i <= |s.cpus| && my <= total && (c < i ==> my <= |L(s, RunQ(c))|) && (i <= c ==> my == 0)
    case Taking(todo, send, share) => todo <= |L(s, RunQ(c))| && send == |L(s, Victims(c))| + todo
    case Placing(at, left, bound) => at <= |s.cpus| && left <= |L(s, Victims(c))|
  }

  /** Threads and CPUs agree about who is where. */
  ghost predicate ThreadsOk(s: System) {
    (forall t :: t in s.threads ==> HomeOk(s, t)) &&
    forall c :: 0 <= c < |s.cpus| ==> CurrentOk(s, c)
  }

  ghost predicate Inv(s: System) {
    Linked(s) && ThreadsOk(s) && forall c :: 0 <= c < |s.cpus| ==> ActivityOk(s, c)
  }

  // ---------------------------------------------------------------- what the invariant says

  /** No thread is current on two CPUs. */
  lemma OneCpu(s: System, c: nat, d: nat)
    requires Inv(s) && c < |s.cpus| && d < |s.cpus| && s.cpus[c].cur == s.cpus[d].cur
    ensures c == d
  {
    assert CurrentOk(s, c) && CurrentOk(s, d);
  }

  ghost predicate OnSomeList(s: System, t: Tid) {
    exists id, i :: 0 <= i < |L(s, id)| && L(s, id)[i] == t
  }

  ghost predicate RunningSomewhere(s: System, t: Tid) {
    exists c :: 0 <= c < |s.cpus| && s.cpus[c].cur == t && s.cpus[c].mode == Run
  }

  /** Where a thread is: on exactly one list in exactly one place, or running on exactly one CPU. */
  lemma WhereIs(s: System, t: Tid)
    requires Inv(s) && t in s.threads
    ensures OnSomeList(s, t) != RunningSomewhere(s, t)
    ensures forall a, b, i, j :: 0 <= i < |L(s, a)| && 0 <= j < |L(s, b)| && L(s, a)[i] == t == L(s, b)[j] ==>
      a == b && i == j
    ensures forall c, d :: 0 <= c < |s.cpus| && 0 <= d < |s.cpus| && s.cpus[c].cur == t == s.cpus[d].cur ==> c == d
  {
    assert HomeOk(s, t);
    var th := s.threads[t];
    forall id, i | 0 <= i < |L(s, id)| && L(s, id)[i] == t
      ensures th.node == On(id)
    {
      assert t in L(s, id);
    }
    forall c | 0 <= c < |s.cpus| && s.cpus[c].cur == t
      ensures c == th.tcpu && (s.cpus[c].mode == Run <==> th.node == Off)
    {
      assert CurrentOk(s, c);
    }
    if th.node.On? {
      assert t in L(s, th.node.id);
    }
    forall a, b, i, j | 0 <= i < |L(s, a)| && 0 <= j < |L(s, b)| && L(s, a)[i] == t == L(s, b)[j]
      ensures a == b && i == j
    {
      assert Distinct(L(s, a));
    }
  }

  /** A queued thread that is still some CPU's current thread is queued on that very CPU, which is not running it. */
  lemma QueuedCurrent(s: System, c: nat, d: nat)
    requires Inv(s) && d < |s.cpus| && s.cpus[d].cur in L(s, RunQ(c))
    ensures c == d && s.cpus[d].mode != Run
  {
    assert CurrentOk(s, d) && HomeOk(s, s.cpus[d].cur);
  }

  // ---------------------------------------------------------------- the steps

  /**
   * Fork, Yield, Sleep and Exit are what a running thread does; Pick, GoIdle and Unidle the loop in thread_switch;
   * a child goes to the CPU home its parent was on when it read its own t_cpu, and may have left since.
   * Exorcise reaps one zombie.  WakeTake and WakePut are the two halves of a wakeup.  The rest is
   * thread_consider_migration, one step for each pass of its loops.
   */
  datatype Step =
    | Fork(c: nat, t: Tid, home: nat)
    | Yield(c: nat)
    | Sleep(c: nat, w: nat)
    | Exit(c: nat)
    | Pick(c: nat)
    | GoIdle(c: nat)
    | Unidle(c: nat)
    | Exorcise(c: nat)
    | WakeTake(c: nat, w: nat)
    | WakePut(c: nat)
    | MigStart(c: nat)
    | MigCount(c: nat)
    | MigDecide(c: nat)
    | MigTake(c: nat)
    | MigPlace(c: nat)
    | MigNext(c: nat)
    | MigDone(c: nat)
    | MigPutBack(c: nat)
    | MigEnd(c: nat)

  /** The run queue of CPU d is not locked by a context switch under way there. */
  predicate Unlocked(s: System, d: nat) {
    d < |s.cpus| && s.cpus[d].mode != Picking
  }

  /** When a step can happen.  Interrupts, and so wakeups and migration, reach a CPU that is running or idle. */
  predicate Enabled(s: System, step: Step) {
    step.c < |s.cpus| &&
    var c, cpu := step.c, s.cpus[step.c];
    match step
    case Fork(_, t, home) => cpu.mode == Run && cpu.act == Normal && t !in s.threads && Unlocked(s, home)
    case Yield(_) => cpu.mode == Run && cpu.act == Normal
    case Sleep(_, _) => cpu.mode == Run && cpu.act == Normal
    case Exit(_) => cpu.mode == Run && cpu.act == Normal
    case Pick(_) => cpu.mode == Picking && L(s, RunQ(c)) != []
    case GoIdle(_) => cpu.mode == Picking && L(s, RunQ(c)) == []
    case Unidle(_) => cpu.mode == Idle && cpu.act == Normal
    case Exorcise(_) => cpu.mode == Run && cpu.act == Normal && L(s, Zombies(c)) != []
    case WakeTake(_, w) => cpu.mode != Picking && (cpu.act == Normal || cpu.act == Waking) && L(s, Wchan(w)) != []
    case WakePut(_) => cpu.act == Waking && (L(s, Wake(c)) != [] ==> Unlocked(s, HomeOf(s, L(s, Wake(c))[0])))
    case MigStart(_) => cpu.mode != Picking && cpu.act == Normal
    case MigCount(_) => cpu.act.Counting? && cpu.act.i < |s.cpus| && Unlocked(s, cpu.act.i)
    case MigDecide(_) => cpu.act.Counting? && cpu.act.i == |s.cpus|
    case MigTake(_) => cpu.act.Taking?
    case MigPlace(_) =>
      cpu.act.Placing? && cpu.act.at < |s.cpus| && cpu.act.left > 0 && cpu.act.at != c && Unlocked(s, cpu.act.at) &&
      |L(s, RunQ(cpu.act.at))| < cpu.act.bound
    case MigNext(_) =>
      cpu.act.Placing? && cpu.act.at < |s.cpus| && cpu.act.left > 0 && Unlocked(s, cpu.act.at) &&
      (cpu.act.at == c || |L(s, RunQ(cpu.act.at))| >= cpu.act.bound)
    case MigDone(_) => cpu.act.Placing? && (cpu.act.at == |s.cpus| || cpu.act.left == 0)
    case MigPutBack(_) => cpu.act.Returning? && L(s, Victims(c)) != []
    case MigEnd(_) => cpu.act.Returning? && L(s, Victims(c)) == []
  }

  function HomeOf(s: System, t: Tid): nat {
    if t in s.threads then s.threads[t].tcpu else 0
  }

  /** DIVROUNDUP */
  function DivRoundUp(a: nat, b: nat): nat
    requires b > 0
  {
    (a + b - 1) / b
  }

  /** share is the least number of threads per CPU that covers all of them. */
  ghost predicate IsShare(share: nat, threads: nat, ncpus: nat) {
    threads <= ncpus * share && (share > 0 ==> ncpus * (share - 1) < threads)
  }

  lemma RoundUpIsShare(a: nat, b: nat)
    requires b > 0
    ensures IsShare(DivRoundUp(a, b), a, b)
    ensures forall share: nat :: IsShare(share, a, b) ==> share == DivRoundUp(a, b)
  {
    var r, s := DivRoundUp(a, b), a + b - 1;
    assert s == b * (s / b) + s % b;
    forall share: nat | IsShare(share, a, b)
      ensures share == r
    {
      if share < r {
        LargerIsNoShare(share, r, a, b);
      } else if r < share {
        LargerIsNoShare(r, share, a, b);
      }
    }
  }

  lemma LargerIsNoShare(p: nat, q: nat, a: nat, b: nat)
    requires b > 0 && IsShare(p, a, b) && p < q
    ensures !IsShare(q, a, b)
  {
    assert b * p <= b * (q - 1);
  }

  /** The heads and tails of the lists a step uses are threads. */
  lemma ListedThreads(s: System)
    requires Linked(s)
    ensures forall id :: L(s, id) != [] ==> L(s, id)[0] in s.threads && Last(L(s, id)) in s.threads
  {
    forall id | L(s, id) != []
      ensures L(s, id)[0] in s.threads && Last(L(s, id)) in s.threads
    {
      assert L(s, id)[0] in L(s, id) && Last(L(s, id)) in L(s, id);
    }
  }

  /** The state after a step. */
  ghost function Next(s: System, step: Step): System
    requires Inv(s) && Enabled(s, step)
  {
    ListedThreads(s);
    var c, cpu := step.c, s.cpus[step.c];
    assert CurrentOk(s, c);
    match step
    case Fork(_, t, home) => Append(s, RunQ(home), t, home, Ready)
    case Yield(_) =>
      if L(s, RunQ(c)) == [] then s
      else SetCpu(Append(s, RunQ(c), cpu.cur, c, Ready), c, cpu.(mode := Picking))
    case Sleep(_, w) => SetCpu(Append(s, Wchan(w), cpu.cur, c, Sleeping), c, cpu.(mode := Picking))
    case Exit(_) => SetCpu(Append(s, Zombies(c), cpu.cur, c, Zombie), c, cpu.(mode := Picking))
    case Pick(_) =>
      var t, s1 := L(s, RunQ(c))[0], RemHead(s, RunQ(c));
      SetCpu(s1.(threads := s1.threads[t := s1.threads[t].(state := Running)]), c, cpu.(cur := t, mode := Run))
    case GoIdle(_) => SetCpu(s, c, cpu.(mode := Idle))
    case Unidle(_) => SetCpu(s, c, cpu.(mode := Picking))
    case Exorcise(_) =>
      var t, s1 := L(s, Zombies(c))[0], RemHead(s, Zombies(c));
      s1.(threads := s1.threads - {t})
    case WakeTake(_, w) =>
      var t := L(s, Wchan(w))[0];
      SetCpu(Append(RemHead(s, Wchan(w)), Wake(c), t, s.threads[t].tcpu, Sleeping), c, cpu.(act := Waking))
    case WakePut(_) =>
      if L(s, Wake(c)) == [] then SetCpu(s, c, cpu.(act := Normal))
      else
        var t := L(s, Wake(c))[0];
        Append(RemHead(s, Wake(c)), RunQ(s.threads[t].tcpu), t, s.threads[t].tcpu, Ready)
    case MigStart(_) => SetCpu(s, c, cpu.(act := Counting(0, 0, 0)))
    case MigCount(_) =>
      var i, n := cpu.act.i, |L(s, RunQ(cpu.act.i))|;
      SetCpu(s, c, cpu.(act := Counting(i + 1, if i == c then n else cpu.act.my, cpu.act.total + n)))
    case MigDecide(_) =>
      var share := DivRoundUp(cpu.act.total, |s.cpus|);
      var surplus := cpu.act.my - share;
      SetCpu(s, c, cpu.(act := if surplus < 0 then Normal else Taking(surplus, surplus, share)))
    case MigTake(_) =>
      if cpu.act.todo == 0 then SetCpu(s, c, cpu.(act := Placing(0, cpu.act.send, cpu.act.share)))
      else
        assert ActivityOk(s, c);
        var t := Last(L(s, RunQ(c)));
        SetCpu(Prepend(RemTail(s, RunQ(c)), Victims(c), t, c, Ready), c,
               cpu.(act := cpu.act.(todo := cpu.act.todo - 1)))
    case MigPlace(_) =>
      assert ActivityOk(s, c);
      var t, s1 := L(s, Victims(c))[0], RemHead(s, Victims(c));
      SetCpu(if t == cpu.cur then Append(s1, Victims(c), t, c, Ready)
             else Append(s1, RunQ(cpu.act.at), t, cpu.act.at, Ready),
             c, cpu.(act := cpu.act.(left := cpu.act.left - 1)))
    case MigNext(_) => SetCpu(s, c, cpu.(act := cpu.act.(at := cpu.act.at + 1)))
    case MigDone(_) => SetCpu(s, c, cpu.(act := Returning))
    case MigPutBack(_) =>
      var t := L(s, Victims(c))[0];
      Append(RemHead(s, Victims(c)), RunQ(c), t, c, Ready)
    case MigEnd(_) => SetCpu(s, c, cpu.(act := Normal))
  }

  // ---------------------------------------------------------------- the list operations keep lists and nodes in step

  /** t's node is linked into no list: what the list code asserts of a node it is about to insert. */
  ghost predicate Free(s: System, t: Tid) {
    t in s.threads ==> s.threads[t].node == Off
  }

  lemma AppendLinked(s: System, id: ListId, t: Tid, tcpu: nat, state: TState)
    requires Linked(s) && Free(s, t)
    ensures Linked(Append(s, id, t, tcpu, state))
  {
    var s' := Append(s, id, t, tcpu, state);
    forall k
      ensures L(s', k) == (if k == id then L(s, id) + [t] else L(s, k)) && Distinct(L(s', k))
    {
      assert Distinct(L(s, k)) && t !in L(s, k);
    }
  }

  lemma PrependLinked(s: System, id: ListId, t: Tid, tcpu: nat, state: TState)
    requires Linked(s) && Free(s, t)
    ensures Linked(Prepend(s, id, t, tcpu, state))
  {
    var s' := Prepend(s, id, t, tcpu, state);
    forall k
      ensures L(s', k) == (if k == id then [t] + L(s, id) else L(s, k)) && Distinct(L(s', k))
    {
      assert Distinct(L(s, k)) && t !in L(s, k);
    }
  }

  lemma UnlinkLinked(s: System, id: ListId, t: Tid, l: seq<Tid>)
    requires Linked(s) && t in L(s, id) && Distinct(l) && forall u :: u in l <==> u in L(s, id) && u != t
    ensures t in s.threads && Linked(Unlink(s, id, t, l))
  {
    var s' := Unlink(s, id, t, l);
    forall k
      ensures L(s', k) == (if k == id then l else L(s, k)) && Distinct(L(s', k))
    {
      assert Distinct(L(s, k));
    }
  }

  lemma RemHeadLinked(s: System, id: ListId)
    requires Linked(s) && L(s, id) != []
    ensures L(s, id)[0] in s.threads && s.threads[L(s, id)[0]].node == On(id)
    ensures Linked(RemHead(s, id)) && Free(RemHead(s, id), L(s, id)[0])
  {
    var l := L(s, id);
    assert Distinct(l) && l[0] in l;
    assert forall u :: u in l <==> u == l[0] || u in l[1..];
    UnlinkLinked(s, id, l[0], l[1..]);
  }

  lemma RemTailLinked(s: System, id: ListId)
    requires Linked(s) && L(s, id) != []
    ensures Last(L(s, id)) in s.threads && s.threads[Last(L(s, id))].node == On(id)
    ensures Linked(RemTail(s, id)) && Free(RemTail(s, id), Last(L(s, id)))
  {
    var l := L(s, id);
    assert Distinct(l) && Last(l) in l;
    assert l == l[..|l| - 1] + [Last(l)];
    UnlinkLinked(s, id, Last(l), l[..|l| - 1]);
  }

  lemma SameLinked(s: System, s': System)
    requires Linked(s) && s'.lists == s.lists && s'.threads.Keys == s.threads.Keys
    requires forall t :: t in s.threads ==> s'.threads[t].node == s.threads[t].node
    ensures Linked(s')
  {
    assert forall id :: L(s', id) == L(s, id);
  }

  /** A thread that is on no list can go. */
  lemma DropLinked(s: System, t: Tid)
    requires Linked(s) && Free(s, t)
    ensures Linked(s.(threads := s.threads - {t}))
  {
    var s' := s.(threads := s.threads - {t});
    assert forall id :: L(s', id) == L(s, id);
  }

  lemma NextLinked(s: System, step: Step)
    requires Inv(s) && Enabled(s, step)
    ensures Linked(Next(s, step))
  {
    hide Linked, HomeOk, ActivityOk;
    var c, cpu := step.c, s.cpus[step.c];
    assert CurrentOk(s, c);
    match step
    case Fork(_, t, home) => AppendLinked(s, RunQ(home), t, home, Ready);
    case Yield(_) =>
      if L(s, RunQ(c)) != [] {
        AppendLinked(s, RunQ(c), cpu.cur, c, Ready);
        SameLinked(Append(s, RunQ(c), cpu.cur, c, Ready), Next(s, step));
      }
    case Sleep(_, w) =>
      AppendLinked(s, Wchan(w), cpu.cur, c, Sleeping);
      SameLinked(Append(s, Wchan(w), cpu.cur, c, Sleeping), Next(s, step));
    case Exit(_) =>
      AppendLinked(s, Zombies(c), cpu.cur, c, Zombie);
      SameLinked(Append(s, Zombies(c), cpu.cur, c, Zombie), Next(s, step));
    case Pick(_) =>
      RemHeadLinked(s, RunQ(c));
      SameLinked(RemHead(s, RunQ(c)), Next(s, step));
    case GoIdle(_) => SameLinked(s, Next(s, step));
    case Unidle(_) => SameLinked(s, Next(s, step));
    case Exorcise(_) =>
      RemHeadLinked(s, Zombies(c));
      DropLinked(RemHead(s, Zombies(c)), L(s, Zombies(c))[0]);
    case WakeTake(_, w) =>
      RemHeadLinked(s, Wchan(w));
      var t := L(s, Wchan(w))[0];
      AppendLinked(RemHead(s, Wchan(w)), Wake(c), t, s.threads[t].tcpu, Sleeping);
      SameLinked(Append(RemHead(s, Wchan(w)), Wake(c), t, s.threads[t].tcpu, Sleeping), Next(s, step));
    case WakePut(_) =>
      if L(s, Wake(c)) == [] {
        SameLinked(s, Next(s, step));
      } else {
        RemHeadLinked(s, Wake(c));
        var t := L(s, Wake(c))[0];
        AppendLinked(RemHead(s, Wake(c)), RunQ(s.threads[t].tcpu), t, s.threads[t].tcpu, Ready);
      }
    case MigTake(_) =>
      if cpu.act.todo == 0 {
        SameLinked(s, Next(s, step));
      } else {
        QueueToTake(s, c);
        RemTailLinked(s, RunQ(c));
        var t := Last(L(s, RunQ(c)));
        PrependLinked(RemTail(s, RunQ(c)), Victims(c), t, c, Ready);
        SameLinked(Prepend(RemTail(s, RunQ(c)), Victims(c), t, c, Ready), Next(s, step));
      }
    case MigPlace(_) =>
      VictimToPlace(s, c);
      RemHeadLinked(s, Victims(c));
      var t, s1 := L(s, Victims(c))[0], RemHead(s, Victims(c));
      AppendLinked(s1, Victims(c), t, c, Ready);
      AppendLinked(s1, RunQ(cpu.act.at), t, cpu.act.at, Ready);
      SameLinked(if t == cpu.cur then Append(s1, Victims(c), t, c, Ready)
                 else Append(s1, RunQ(cpu.act.at), t, cpu.act.at, Ready),
                 Next(s, step));
    case MigPutBack(_) =>
      RemHeadLinked(s, Victims(c));
      AppendLinked(RemHead(s, Victims(c)), RunQ(c), L(s, Victims(c))[0], c, Ready);
    case _ => SameLinked(s, Next(s, step));
  }

  /** Migration never pops an empty run queue, nor an empty list of victims. */
  lemma QueueToTake(s: System, c: nat)
    requires Inv(s) && c < |s.cpus| && s.cpus[c].act.Taking? && s.cpus[c].act.todo > 0
    ensures L(s, RunQ(c)) != []
  {
    assert ActivityOk(s, c);
  }

  lemma VictimToPlace(s: System, c: nat)
    requires Inv(s) && c < |s.cpus| && s.cpus[c].act.Placing? && s.cpus[c].act.left > 0
    ensures L(s, Victims(c)) != []
  {
    assert ActivityOk(s, c);
  }

  // ---------------------------------------------------------------- every step keeps the invariant

  /** t is a thread whose node is on list id. */
  ghost predicate Sits(s: System, t: Tid, id: ListId) {
    t in s.threads && s.threads[t].node == On(id) && HomeOk(s, t)
  }

  lemma HeadsHome(s: System)
    requires Inv(s)
    ensures forall id :: L(s, id) != [] ==> Sits(s, L(s, id)[0], id) && Sits(s, Last(L(s, id)), id)
  {
    ListedThreads(s);
    forall id | L(s, id) != []
      ensures s.threads[L(s, id)[0]].node == On(id) && s.threads[Last(L(s, id))].node == On(id)
    {
      assert L(s, id)[0] in L(s, id) && Last(L(s, id)) in L(s, id);
    }
  }

  /** Other CPUs may lengthen a CPU's run queue, but not shorten it nor touch its private lists. */
  lemma OtherActivity(s: System, s': System, c: nat)
    requires c < |s.cpus| == |s'.cpus| && s'.cpus[c] == s.cpus[c] && ActivityOk(s, c)
    requires L(s', Wake(c)) == L(s, Wake(c)) && L(s', Victims(c)) == L(s, Victims(c))
    requires |L(s', RunQ(c))| >= |L(s, RunQ(c))|
    ensures ActivityOk(s', c)
  {
  }

  /** What a running thread does to itself, or by forking. */
  lemma SelfThreads(s: System, step: Step)
    requires Inv(s) && Enabled(s, step) && (step.Fork? || step.Yield? || step.Sleep? || step.Exit?)
    ensures ThreadsOk(Next(s, step)) && |Next(s, step).cpus| == |s.cpus|
  {
    var s' := Next(s, step);
    HeadsHome(s);
    hide Linked, ActivityOk;
    assert CurrentOk(s, step.c);
    forall t | t in s'.threads
      ensures HomeOk(s', t)
    {
      assert t in s.threads ==> HomeOk(s, t);
    }
    forall c | 0 <= c < |s.cpus|
      ensures CurrentOk(s', c)
    {
      assert CurrentOk(s, c);
    }
  }

  lemma SelfActivity(s: System, step: Step)
    requires Inv(s) && Enabled(s, step) && (step.Fork? || step.Yield? || step.Sleep? || step.Exit?)
    ensures |Next(s, step).cpus| == |s.cpus|
    ensures forall c :: 0 <= c < |s.cpus| ==> ActivityOk(Next(s, step), c)
  {
    var s' := Next(s, step);
    hide Linked, HomeOk;
    assert CurrentOk(s, step.c) && ActivityOk(s, step.c);
    forall c | 0 <= c < |s.cpus|
      ensures ActivityOk(s', c)
    {
      if c != step.c {
        OtherActivity(s, s', c);
      }
    }
  }

  /** The switching loop, and reaping. */
  lemma SwitchThreads(s: System, step: Step)
    requires Inv(s) && Enabled(s, step) && (step.Pick? || step.GoIdle? || step.Unidle? || step.Exorcise?)
    ensures ThreadsOk(Next(s, step)) && |Next(s, step).cpus| == |s.cpus|
  {
    var s' := Next(s, step);
    HeadsHome(s);
    hide Linked, ActivityOk;
    assert CurrentOk(s, step.c);
    forall t | t in s'.threads
      ensures HomeOk(s', t)
    {
      assert t in s.threads ==> HomeOk(s, t);
    }
    forall c | 0 <= c < |s.cpus|
      ensures CurrentOk(s', c)
    {
      assert CurrentOk(s, c);
    }
  }

  lemma SwitchActivity(s: System, step: Step)
    requires Inv(s) && Enabled(s, step) && (step.Pick? || step.GoIdle? || step.Unidle? || step.Exorcise?)
    ensures |Next(s, step).cpus| == |s.cpus|
    ensures forall c :: 0 <= c < |s.cpus| ==> ActivityOk(Next(s, step), c)
  {
    var s' := Next(s, step);
    hide Linked, HomeOk;
    assert CurrentOk(s, step.c) && ActivityOk(s, step.c);
    forall c | 0 <= c < |s.cpus|
      ensures ActivityOk(s', c)
    {
      if c != step.c {
        OtherActivity(s, s', c);
      }
    }
  }

  /** Taking a thread off a wait channel. */
  lemma WakeTakeThreads(s: System, step: Step)
    requires Inv(s) && Enabled(s, step) && step.WakeTake?
    ensures ThreadsOk(Next(s, step)) && |Next(s, step).cpus| == |s.cpus|
  {
    var s' := Next(s, step);
    HeadsHome(s);
    var t0 := L(s, Wchan(step.w))[0];
    assert s'.threads == s.threads[t0 := Thread(On(Wake(step.c)), s.threads[t0].tcpu, Sleeping)];
    assert s'.cpus == s.cpus[step.c := s.cpus[step.c].(act := Waking)];
    assert CurrentOk(s, step.c) && HomeOk(s, t0) && s.threads[t0].node == On(Wchan(step.w));
    hide Linked, ActivityOk, Next, Enabled, L;
    forall t | t in s'.threads
      ensures HomeOk(s', t)
    {
      assert t in s.threads ==> HomeOk(s, t);
    }
    forall c | 0 <= c < |s.cpus|
      ensures CurrentOk(s', c)
    {
      assert CurrentOk(s, c);
    }
  }

  /** Making it runnable on its own CPU. */
  lemma WakePutThreads(s: System, step: Step)
    requires Inv(s) && Enabled(s, step) && step.WakePut?
    ensures ThreadsOk(Next(s, step)) && |Next(s, step).cpus| == |s.cpus|
  {
    var s' := Next(s, step);
    HeadsHome(s);
    hide Linked, ActivityOk;
    assert CurrentOk(s, step.c);
    forall t | t in s'.threads
      ensures HomeOk(s', t)
    {
      assert t in s.threads ==> HomeOk(s, t);
    }
    forall c | 0 <= c < |s.cpus|
      ensures CurrentOk(s', c)
    {
      assert CurrentOk(s, c);
    }
  }

  lemma WakeActivity(s: System, step: Step)
    requires Inv(s) && Enabled(s, step) && (step.WakeTake? || step.WakePut?)
    ensures |Next(s, step).cpus| == |s.cpus|
    ensures forall c :: 0 <= c < |s.cpus| ==> ActivityOk(Next(s, step), c)
  {
    var s' := Next(s, step);
    hide Linked, HomeOk;
    assert CurrentOk(s, step.c) && ActivityOk(s, step.c);
    forall c | 0 <= c < |s.cpus|
      ensures ActivityOk(s', c)
    {
      if c != step.c {
        OtherActivity(s, s', c);
      }
    }
  }

  /** A step that changes nothing but what CPUs are in the middle of. */
  lemma SameThreads(s: System, s': System)
    requires ThreadsOk(s) && s'.threads == s.threads && |s'.cpus| == |s.cpus|
    requires forall c :: 0 <= c < |s.cpus| ==> s'.cpus[c].cur == s.cpus[c].cur && s'.cpus[c].mode == s.cpus[c].mode
    ensures ThreadsOk(s')
  {
    forall t | t in s'.threads
      ensures HomeOk(s', t)
    {
      assert HomeOk(s, t);
    }
    forall c | 0 <= c < |s.cpus|
      ensures CurrentOk(s', c)
    {
      assert CurrentOk(s, c);
    }
  }

  predicate IsBookkeeping(step: Step) {
    step.MigStart? || step.MigCount? || step.MigDecide? || step.MigNext? || step.MigDone? || step.MigEnd?
  }

  /** The bookkeeping of migration, which moves nobody. */
  lemma CountThreads(s: System, step: Step)
    requires Inv(s) && Enabled(s, step) && IsBookkeeping(step)
    ensures ThreadsOk(Next(s, step)) && |Next(s, step).cpus| == |s.cpus|
  {
    hide Linked, ActivityOk, ThreadsOk;
    SameThreads(s, Next(s, step));
  }

  lemma CountActivity(s: System, step: Step)
    requires Inv(s) && Enabled(s, step) && IsBookkeeping(step)
    ensures |Next(s, step).cpus| == |s.cpus|
    ensures forall c :: 0 <= c < |s.cpus| ==> ActivityOk(Next(s, step), c)
  {
    var s' := Next(s, step);
    hide Linked, HomeOk;
    assert CurrentOk(s, step.c) && ActivityOk(s, step.c);
    forall c | 0 <= c < |s.cpus|
      ensures ActivityOk(s', c)
    {
      if c != step.c {
        OtherActivity(s, s', c);
      }
    }
  }

  /** Taking a victim. */
  lemma TakeThreads(s: System, step: Step)
    requires Inv(s) && Enabled(s, step) && step.MigTake?
    ensures ThreadsOk(Next(s, step)) && |Next(s, step).cpus| == |s.cpus|
  {
    if s.cpus[step.c].act.todo == 0 {
      hide ThreadsOk;
      SameThreads(s, Next(s, step));
    } else {
      TakeOneThreads(s, step);
    }
  }

  lemma TakeOneThreads(s: System, step: Step)
    requires Inv(s) && Enabled(s, step) && step.MigTake? && s.cpus[step.c].act.todo > 0
    ensures ThreadsOk(Next(s, step)) && |Next(s, step).cpus| == |s.cpus|
  {
    var s' := Next(s, step);
    QueueToTake(s, step.c);
    HeadsHome(s);
    hide Linked, ActivityOk;
    assert CurrentOk(s, step.c);
    forall t | t in s'.threads
      ensures HomeOk(s', t)
    {
      assert t in s.threads && HomeOk(s, t);
    }
    forall c | 0 <= c < |s.cpus|
      ensures CurrentOk(s', c)
    {
      assert CurrentOk(s, c);
    }
  }

  /** What moving one thread from the run queue's tail to the victims does to the lists. */
  lemma TakeLists(s: System, c: nat)
    requires Inv(s) && Enabled(s, MigTake(c)) && s.cpus[c].act.todo > 0
    ensures L(s, RunQ(c)) != []
    ensures var s', l := Next(s, MigTake(c)), L(s, RunQ(c));
      L(s', RunQ(c)) == l[..|l| - 1] && L(s', Victims(c)) == [Last(l)] + L(s, Victims(c)) &&
      forall id :: id != RunQ(c) && id != Victims(c) ==> L(s', id) == L(s, id)
  {
    hide Linked, HomeOk, CurrentOk;
    QueueToTake(s, c);
  }

  /** What placing one victim does to the lists. */
  lemma PlaceLists(s: System, c: nat)
    requires Inv(s) && Enabled(s, MigPlace(c))
    ensures L(s, Victims(c)) != []
    ensures var s' := Next(s, MigPlace(c));
      |L(s, Victims(c))| - 1 <= |L(s', Victims(c))| &&
      |L(s', RunQ(s.cpus[c].act.at))| >= |L(s, RunQ(s.cpus[c].act.at))| &&
      forall id :: id != Victims(c) && id != RunQ(s.cpus[c].act.at) ==> L(s', id) == L(s, id)
  {
    hide Linked, HomeOk, CurrentOk;
    VictimToPlace(s, c);
  }

  lemma TakeActivity(s: System, step: Step)
    requires Inv(s) && Enabled(s, step) && step.MigTake?
    ensures forall c :: 0 <= c < |Next(s, step).cpus| ==> ActivityOk(Next(s, step), c)
  {
    hide Linked, HomeOk, CurrentOk;
    var s' := Next(s, step);
    assert ActivityOk(s, step.c);
    if s.cpus[step.c].act.todo > 0 {
      TakeLists(s, step.c);
    } else {
      assert forall id :: L(s', id) == L(s, id);
    }
    hide L, Append, Prepend, RemTail, Last;
    forall c | 0 <= c < |s.cpus|
      ensures ActivityOk(s', c)
    {
      if c != step.c {
        OtherActivity(s, s', c);
      }
    }
  }

  /** Placing a victim, or keeping the current thread back. */
  lemma PlaceThreads(s: System, step: Step)
    requires Inv(s) && Enabled(s, step) && step.MigPlace?
    ensures ThreadsOk(Next(s, step)) && |Next(s, step).cpus| == |s.cpus|
  {
    var s' := Next(s, step);
    HeadsHome(s);
    VictimToPlace(s, step.c);
    hide Linked, ActivityOk;
    assert CurrentOk(s, step.c);
    forall t | t in s'.threads
      ensures HomeOk(s', t)
    {
      assert t in s.threads ==> HomeOk(s, t);
    }
    forall c | 0 <= c < |s.cpus|
      ensures CurrentOk(s', c)
    {
      assert CurrentOk(s, c);
    }
  }

  lemma PlaceActivity(s: System, step: Step)
    requires Inv(s) && Enabled(s, step) && step.MigPlace?
    ensures forall c :: 0 <= c < |Next(s, step).cpus| ==> ActivityOk(Next(s, step), c)
  {
    hide Linked, HomeOk, CurrentOk;
    var s' := Next(s, step);
    assert ActivityOk(s, step.c);
    PlaceLists(s, step.c);
    hide L, Append, RemHead;
    forall c | 0 <= c < |s.cpus|
      ensures ActivityOk(s', c)
    {
      if c != step.c {
        OtherActivity(s, s', c);
      }
    }
  }

  /** Putting a leftover back. */
  lemma PutBackThreads(s: System, step: Step)
    requires Inv(s) && Enabled(s, step) && step.MigPutBack?
    ensures ThreadsOk(Next(s, step)) && |Next(s, step).cpus| == |s.cpus|
  {
    var s' := Next(s, step);
    HeadsHome(s);
    hide Linked, ActivityOk;
    assert CurrentOk(s, step.c);
    forall t | t in s'.threads
      ensures HomeOk(s', t)
    {
      assert t in s.threads ==> HomeOk(s, t);
    }
    forall c | 0 <= c < |s.cpus|
      ensures CurrentOk(s', c)
    {
      assert CurrentOk(s, c);
    }
  }

  lemma PutBackActivity(s: System, step: Step)
    requires Inv(s) && Enabled(s, step) && step.MigPutBack?
    ensures |Next(s, step).cpus| == |s.cpus|
    ensures forall c :: 0 <= c < |s.cpus| ==> ActivityOk(Next(s, step), c)
  {
    var s' := Next(s, step);
    HeadsHome(s);
    hide Linked, HomeOk;
    assert CurrentOk(s, step.c) && ActivityOk(s, step.c);
    forall c | 0 <= c < |s.cpus|
      ensures ActivityOk(s', c)
    {
      if c != step.c {
        OtherActivity(s, s', c);
      }
    }
  }

  lemma NextThreadsOk(s: System, step: Step)
    requires Inv(s) && Enabled(s, step)
    ensures ThreadsOk(Next(s, step)) && |Next(s, step).cpus| == |s.cpus|
  {
    hide ThreadsOk, Inv, Enabled, Next;
    if step.Fork? || step.Yield? || step.Sleep? || step.Exit? {
      SelfThreads(s, step);
    } else if step.Pick? || step.GoIdle? || step.Unidle? || step.Exorcise? {
      SwitchThreads(s, step);
    } else if step.WakeTake? {
      WakeTakeThreads(s, step);
    } else if step.WakePut? {
      WakePutThreads(s, step);
    } else if step.MigTake? {
      TakeThreads(s, step);
    } else if step.MigPlace? {
      PlaceThreads(s, step);
    } else if step.MigPutBack? {
      PutBackThreads(s, step);
    } else {
      CountThreads(s, step);
    }
  }

  lemma NextActivityOk(s: System, step: Step)
    requires Inv(s) && Enabled(s, step)
    ensures forall c :: 0 <= c < |Next(s, step).cpus| ==> ActivityOk(Next(s, step), c)
  {
    hide ActivityOk, Inv, Enabled, Next;
    if step.Fork? || step.Yield? || step.Sleep? || step.Exit? {
      SelfActivity(s, step);
    } else if step.Pick? || step.GoIdle? || step.Unidle? || step.Exorcise? {
      SwitchActivity(s, step);
    } else if step.WakeTake? || step.WakePut? {
      WakeActivity(s, step);
    } else if step.MigTake? {
      TakeActivity(s, step);
    } else if step.MigPlace? {
      PlaceActivity(s, step);
    } else if step.MigPutBack? {
      PutBackActivity(s, step);
    } else {
      CountActivity(s, step);
    }
  }

  /** Every step keeps the invariant. */
  lemma NextKeepsInv(s: System, step: Step)
    requires Inv(s) && Enabled(s, step)
    ensures Inv(Next(s, step))
  {
    hide Linked, ThreadsOk, ActivityOk, Enabled, Next;
    NextLinked(s, step);
    NextThreadsOk(s, step);
    NextActivityOk(s, step);
  }

  // ---------------------------------------------------------------- what holds at each step

  /** A thread that queues itself, or falls asleep or exits, belongs to its CPU and is on no list yet. */
  lemma SwitchingThread(s: System, c: nat)
    requires Inv(s) && c < |s.cpus| && s.cpus[c].mode == Run
    ensures s.cpus[c].cur in s.threads && s.threads[s.cpus[c].cur].tcpu == c && Free(s, s.cpus[c].cur)
    ensures forall id :: s.cpus[c].cur !in L(s, id)
  {
    assert CurrentOk(s, c);
  }

  /** Exorcise never destroys a thread that some CPU still has as its current thread. */
  lemma ReapedIsGone(s: System, c: nat)
    requires Inv(s) && Enabled(s, Exorcise(c))
    ensures var z := L(s, Zombies(c))[0];
      z in s.threads && s.threads[z].state == Zombie && forall d :: 0 <= d < |s.cpus| ==> s.cpus[d].cur != z
  {
    var z := L(s, Zombies(c))[0];
    assert z in L(s, Zombies(c)) && HomeOk(s, z);
    forall d | 0 <= d < |s.cpus|
      ensures s.cpus[d].cur != z
    {
      assert CurrentOk(s, d) && CurrentOk(s, c);
    }
  }

  /** One pass of the placing loop: current threads stay home, other victims go, and no receiver goes past the bound. */
  lemma PlacingPass(s: System, c: nat)
    requires Inv(s) && Enabled(s, MigPlace(c))
    ensures L(s, Victims(c)) != [] && L(s, Victims(c))[0] in s.threads
    ensures var t, s', to := L(s, Victims(c))[0], Next(s, MigPlace(c)), s.cpus[c].act.at;
      if t == s.cpus[c].cur then
        L(s', Victims(c)) == L(s, Victims(c))[1..] + [t] && s'.threads[t].tcpu == c && L(s', RunQ(to)) == L(s, RunQ(to))
      else
        L(s', Victims(c)) == L(s, Victims(c))[1..] && s'.threads[t].tcpu == to &&
        L(s', RunQ(to)) == L(s, RunQ(to)) + [t] &&
        |L(s', RunQ(to))| <= s.cpus[c].act.bound && forall d :: 0 <= d < |s.cpus| ==> s.cpus[d].cur != t
  {
    VictimToPlace(s, c);
    HeadsHome(s);
    var t := L(s, Victims(c))[0];
    forall d | 0 <= d < |s.cpus| && s.cpus[d].cur == t
      ensures d == c
    {
      assert CurrentOk(s, d);
    }
  }

  /** Only forking adds a thread, and only reaping removes one; no other step loses or makes up a thread. */
  lemma ThreadsConserved(s: System, step: Step)
    requires Inv(s) && Enabled(s, step)
    ensures step.Fork? ==> Next(s, step).threads.Keys == s.threads.Keys + {step.t}
    ensures step.Exorcise? ==> Next(s, step).threads.Keys == s.threads.Keys - {L(s, Zombies(step.c))[0]}
    ensures !step.Fork? && !step.Exorcise? ==> Next(s, step).threads.Keys == s.threads.Keys
  {
    hide Linked, HomeOk, ActivityOk;
    ListedThreads(s);
    assert CurrentOk(s, step.c);
    if step.MigPlace? {
      VictimToPlace(s, step.c);
    } else if step.MigTake? && s.cpus[step.c].act.todo > 0 {
      QueueToTake(s, step.c);
    }
  }

  // ---------------------------------------------------------------- runs

  /** CPUs just created, each running its own boot thread. */
  function Boot(n: nat): System {
    System(seq(n, i => Cpu(i, Run, Normal)), map t | 0 <= t < n :: Thread(Off, t, Running), map[])
  }

  lemma BootInv(n: nat)
    ensures Inv(Boot(n))
  {
    assert forall id :: L(Boot(n), id) == [];
  }

  ghost predicate Becomes(s: System, step: Step, s': System) {
    Enabled(s, step) && (Inv(s) ==> s' == Next(s, step))
  }

  ghost predicate Execution(ss: seq<System>, steps: seq<Step>) {
    |ss| == |steps| + 1 && forall i :: 0 <= i < |steps| ==> Becomes(ss[i], steps[i], StateAfter(ss, i))
  }

  ghost function StateAfter(ss: seq<System>, i: nat): System
    requires i + 1 < |ss|
  {
    ss[i + 1]
  }

  /** At every point of every run from boot, on any number of CPUs, the invariant holds. */
  lemma {:induction false} ReachableInv(ss: seq<System>, steps: seq<Step>, n: nat, k: nat)
    requires Execution(ss, steps) && ss[0] == Boot(n) && k < |ss|
    ensures Inv(ss[k])
  {
    hide Inv, Enabled, Next, Boot;
    if k == 0 {
      BootInv(n);
    } else {
      ReachableInv(ss, steps, n, k - 1);
      assert Becomes(ss[k - 1], steps[k - 1], StateAfter(ss, k - 1));
      NextKeepsInv(ss[k - 1], steps[k - 1]);
    }
  }

  /** So in every run no thread is ever current on two CPUs, or queued while it runs. */
  lemma NeverTwice(ss: seq<System>, steps: seq<Step>, n: nat, k: nat, c: nat, d: nat)
    requires Execution(ss, steps) && ss[0] == Boot(n) && k < |ss| && c < |ss[k].cpus| && d < |ss[k].cpus| && c != d
    ensures ss[k].cpus[c].cur != ss[k].cpus[d].cur
    ensures ss[k].cpus[c].mode == Run ==> forall id :: ss[k].cpus[c].cur !in L(ss[k], id)
  {
    ReachableInv(ss, steps, n, k);
    if ss[k].cpus[c].cur == ss[k].cpus[d].cur {
      OneCpu(ss[k], c, d);
    }
    if ss[k].cpus[c].mode == Run {
      SwitchingThread(ss[k], c);
    }
  }
}
