/**
 * Interrupt levels: each thread counts how many times the level has been raised on its behalf, by spinlocks and
 * by splx, and interrupts are on exactly while the running thread's count is zero.
 */
module InterruptLevel {

  type Tid = int

  const IPL_NONE: int := 0
  const IPL_HIGH: int := 1

  // ---------------------------------------------------------------- one CPU and its current thread

  /** t_iplhigh_count and t_curspl of the current thread, c_spinlocks, and whether interrupts are off. */
  datatype Local = Local(count: int, curspl: int, spinlocks: int, irqOff: bool)

  ghost predicate LocalOk(l: Local) {
    (l.curspl == IPL_NONE || l.curspl == IPL_HIGH) && l.spinlocks >= 0 &&
    l.count == l.spinlocks + l.curspl && (l.irqOff <==> l.count > 0)
  }

  function Raise(l: Local): Local {
    l.(count := l.count + 1, irqOff := if l.count == 0 then true else l.irqOff)
  }

  function Lower(l: Local): Local {
    l.(count := l.count - 1, irqOff := if l.count == 1 then false else l.irqOff)
  }

  function SetLevel(l: Local, spl: int): Local {
    if l.curspl < spl then Raise(l).(curspl := spl)
    else if l.curspl > spl then Lower(l.(curspl := spl))
    else l
  }

  function Acquire(l: Local): Local {
    Raise(l).(spinlocks := l.spinlocks + 1)
  }

  function Release(l: Local): Local {
    Lower(l.(spinlocks := l.spinlocks - 1))
  }

  class Spinlock {
    var word: int
    var holder: Processor?

    constructor ()
      ensures word == 0 && holder == null
    {
      word, holder := 0, null;
    }
  }

  /** A CPU past its startup, with the interrupt fields of its current thread. */
  class Processor {
    var iplhighCount: int
    var curspl: int
    var spinlocks: int
    var irqOff: bool

    ghost function View(): Local
      reads this
    {
      Local(iplhighCount, curspl, spinlocks, irqOff)
    }

    constructor ()
      ensures View() == Local(1, IPL_HIGH, 0, true) && LocalOk(View())
    {
      iplhighCount, curspl, spinlocks, irqOff := 1, IPL_HIGH, 0, true;
    }

    method SplRaise(oldspl: int, newspl: int)
      requires oldspl == IPL_NONE && newspl == IPL_HIGH
      modifies this
      ensures View() == Raise(old(View()))
    {
      if iplhighCount == 0 {
        irqOff := true;
      }
      iplhighCount := iplhighCount + 1;
    }

    method SplLower(oldspl: int, newspl: int)
      requires oldspl == IPL_HIGH && newspl == IPL_NONE
      modifies this
      ensures View() == Lower(old(View()))
    {
      iplhighCount := iplhighCount - 1;
      if iplhighCount == 0 {
        irqOff := false;
      }
    }

    /** splx: the two assertions about levels in splraise and spllower hold. */
    method Splx(spl: int) returns (ret: int)
      requires LocalOk(View()) && (spl == IPL_NONE || spl == IPL_HIGH)
      modifies this
      ensures View() == SetLevel(old(View()), spl) && LocalOk(View())
      ensures ret == old(curspl) && curspl == spl
    {
      if curspl < spl {
        SplRaise(curspl, spl);
        ret := curspl;
        curspl := spl;
      } else if curspl > spl {
        ret := curspl;
        curspl := spl;
        SplLower(ret, spl);
      } else {
        ret := spl;
      }
    }

    /**
     * spinlock_acquire of a lock that is free by the time the spinning ends; false is the panic on a lock already held
     * here.
     */
    method SpinAcquire(lk: Spinlock) returns (ok: bool)
      requires LocalOk(View()) && (lk.holder != this ==> lk.word == 0)
      modifies this, lk
      ensures ok <==> old(lk.holder) != this
      ensures ok ==> View() == Acquire(old(View())) && LocalOk(View()) && lk.holder == this && lk.word == 1
      ensures irqOff
    {
      SplRaise(IPL_NONE, IPL_HIGH);
      if lk.holder == this {
        return false;
      }
      spinlocks := spinlocks + 1;
      lk.word := 1;
      lk.holder := this;
      ok := true;
    }

    method SpinRelease(lk: Spinlock)
      requires LocalOk(View()) && lk.holder == this && spinlocks > 0
      modifies this, lk
      ensures View() == Release(old(View())) && LocalOk(View()) && lk.holder == null && lk.word == 0
      ensures irqOff <==> spinlocks + curspl > 0
    {
      assert irqOff;
      spinlocks := spinlocks - 1;
      lk.holder := null;
      lk.word := 0;
      SplLower(IPL_HIGH, IPL_NONE);
    }
  }

  /** Locks and level changes that do not nest: interrupts come back on only when the last of them is undone. */
  lemma CrossedNesting(l: Local)
    requires LocalOk(l) && l.count == 0
    ensures var red := Acquire(l);
      var high := SetLevel(red, IPL_HIGH);
      var blue := Acquire(high);
      var low := SetLevel(blue, red.curspl);
      var noRed := Release(low);
      red.irqOff && high.irqOff && blue.irqOff && low.irqOff && noRed.irqOff && Release(noRed) == l
  {
  }

  // ---------------------------------------------------------------- many CPUs and context switches

  /** Normal: outside thread_switch.  Switching: inside it with the run queue locked.  Idling: inside it, unlocked. */
  datatype Mode = Normal | Switching | Idling

  /** The fields of a thread; saved is what its thread_switch will pass to splx on the way out. */
  datatype Thread = Thread(count: int, curspl: int, saved: int)

  datatype Cpu = Cpu(cur: Tid, spinlocks: int, irqOff: bool, mode: Mode)

  datatype System = System(cpus: seq<Cpu>, threads: map<Tid, Thread>)

  /**
   * Level is splx and Take and Drop are spinlock operations by the running thread.  Yield and Sleep begin
   * thread_switch, the latter letting go of the wait channel's lock; Rest and Wake leave and re-enter the locked part
   * of its loop; Hand switches to another thread's stack; Leave ends thread_switch or starts a new thread.
   */
  datatype Step =
    | Level(c: nat, spl: int)
    | Take(c: nat)
    | Drop(c: nat)
    | Fork(c: nat, t: Tid)
    | Yield(c: nat)
    | Sleep(c: nat)
    | Rest(c: nat)
    | Wake(c: nat)
    | Hand(c: nat, t: Tid)
    | Leave(c: nat)

  ghost predicate IsCurrent(s: System, t: Tid) {
    exists c :: 0 <= c < |s.cpus| && s.cpus[c].cur == t
  }

  function LocalOf(s: System, c: nat): Local
    requires c < |s.cpus| && s.cpus[c].cur in s.threads
  {
    var cpu, th := s.cpus[c], s.threads[s.cpus[c].cur];
    Local(th.count, th.curspl, cpu.spinlocks, cpu.irqOff)
  }

  function WithLocal(s: System, c: nat, l: Local, saved: int, mode: Mode): System
    requires c < |s.cpus|
  {
    var cpu := s.cpus[c];
    System(s.cpus[c := Cpu(cpu.cur, l.spinlocks, l.irqOff, mode)],
           s.threads[cpu.cur := Thread(l.count, l.curspl, saved)])
  }

  ghost predicate Enabled(s: System, step: Step) {
    step.c < |s.cpus| && s.cpus[step.c].cur in s.threads &&
    var cpu := s.cpus[step.c];
    match step
    case Level(_, spl) => cpu.mode == Normal && (spl == IPL_NONE || spl == IPL_HIGH)
    case Take(_) => cpu.mode == Normal
    case Drop(_) => cpu.mode == Normal && cpu.spinlocks > 0
    case Fork(_, t) => cpu.mode == Normal && t !in s.threads
    case Yield(_) => cpu.mode == Normal && cpu.spinlocks == 0
    case Sleep(_) => cpu.mode == Normal && cpu.spinlocks == 1
    case Rest(_) => cpu.mode == Switching
    case Wake(_) => cpu.mode == Idling
    case Hand(_, t) => cpu.mode == Switching && t in s.threads && (t == cpu.cur || !IsCurrent(s, t))
    case Leave(_) => cpu.mode == Switching
  }

  ghost function Next(s: System, step: Step): System
    requires Enabled(s, step)
  {
    var c, cpu, th, l := step.c, s.cpus[step.c], s.threads[s.cpus[step.c].cur], LocalOf(s, step.c);
    match step
    case Level(_, spl) => WithLocal(s, c, SetLevel(l, spl), th.saved, Normal)
    case Take(_) => WithLocal(s, c, Acquire(l), th.saved, Normal)
    case Drop(_) => WithLocal(s, c, Release(l), th.saved, Normal)
    case Fork(_, t) => s.(threads := s.threads[t := Thread(1 + 1, IPL_HIGH, IPL_NONE)])
    case Yield(_) => WithLocal(s, c, Acquire(SetLevel(l, IPL_HIGH)), th.curspl, Switching)
    case Sleep(_) => WithLocal(s, c, Release(Acquire(SetLevel(l, IPL_HIGH))), th.curspl, Switching)
    case Rest(_) => WithLocal(s, c, Release(l), th.saved, Idling)
    case Wake(_) => WithLocal(s, c, Acquire(l), th.saved, Switching)
    case Hand(_, t) => s.(cpus := s.cpus[c := cpu.(cur := t)])
    case Leave(_) => WithLocal(s, c, SetLevel(Release(l), th.saved), th.saved, Normal)
  }

  /**
   * A CPU and its current thread agree; inside thread_switch the level is high and only the run queue can be locked.
   */
  ghost predicate CpuOk(s: System, c: nat)
    requires c < |s.cpus|
  {
    s.cpus[c].cur in s.threads && LocalOk(LocalOf(s, c)) &&
    (s.cpus[c].mode != Normal ==>
       s.threads[s.cpus[c].cur].curspl == IPL_HIGH &&
       s.cpus[c].spinlocks == if s.cpus[c].mode == Switching then 1 else 0)
  }

  /** A thread that is not running, switched out or new, counts two: its own level and the run queue's lock. */
  ghost predicate ParkedOk(s: System, t: Tid)
    requires t in s.threads
  {
    var th := s.threads[t];
    (th.saved == IPL_NONE || th.saved == IPL_HIGH) && (!IsCurrent(s, t) ==> th.count == 2 && th.curspl == IPL_HIGH)
  }

  ghost predicate Inv(s: System) {
    (forall c :: 0 <= c < |s.cpus| ==> CpuOk(s, c)) &&
    (forall t :: t in s.threads ==> ParkedOk(s, t)) &&
    forall c, d :: 0 <= c < d < |s.cpus| ==> s.cpus[c].cur != s.cpus[d].cur
  }

  lemma CurrentAfter(s: System, step: Step)
    requires Inv(s) && Enabled(s, step) && !step.Hand?
    ensures forall t :: IsCurrent(Next(s, step), t) <==> IsCurrent(s, t)
  {
    var s' := Next(s, step);
    assert forall c :: 0 <= c < |s.cpus| ==> s'.cpus[c].cur == s.cpus[c].cur;
  }

  /** A step that changes one CPU and its current thread only. */
  lemma LocalStepKeepsInv(s: System, step: Step)
    requires Inv(s) && Enabled(s, step) && !step.Hand? && !step.Fork?
    ensures Inv(Next(s, step))
  {
    var s', c0 := Next(s, step), step.c;
    CurrentAfter(s, step);
    assert CpuOk(s, c0) && ParkedOk(s, s.cpus[c0].cur);
    assert IsCurrent(s, s.cpus[c0].cur);
    forall c | 0 <= c < |s'.cpus|
      ensures CpuOk(s', c)
    {
      assert CpuOk(s, c);
    }
    forall t | t in s'.threads
      ensures ParkedOk(s', t)
    {
      assert t in s.threads && ParkedOk(s, t);
    }
  }

  lemma ForkKeepsInv(s: System, c: nat, t: Tid)
    requires Inv(s) && Enabled(s, Fork(c, t))
    ensures Inv(Next(s, Fork(c, t)))
  {
    var s' := Next(s, Fork(c, t));
    CurrentAfter(s, Fork(c, t));
    forall d | 0 <= d < |s'.cpus|
      ensures CpuOk(s', d)
    {
      assert CpuOk(s, d);
    }
    forall u | u in s'.threads
      ensures ParkedOk(s', u)
    {
      assert u in s.threads ==> ParkedOk(s, u);
    }
  }

  /** Handing the CPU over: the thread switched to brings count two with it, which fits the lock it finds held. */
  lemma HandKeepsInv(s: System, c: nat, t: Tid)
    requires Inv(s) && Enabled(s, Hand(c, t))
    ensures Inv(Next(s, Hand(c, t)))
  {
    var s', was := Next(s, Hand(c, t)), s.cpus[c].cur;
    assert CpuOk(s, c) && ParkedOk(s, t);
    forall d | 0 <= d < |s'.cpus|
      ensures CpuOk(s', d) && (d != c ==> s'.cpus[d].cur != t && s'.cpus[d].cur != was)
    {
      assert CpuOk(s, d);
      assert IsCurrent(s, s.cpus[d].cur);
    }
    assert s'.cpus[c].cur == t;
    forall u | u in s'.threads
      ensures ParkedOk(s', u)
    {
      assert ParkedOk(s, u);
      if u != was && IsCurrent(s, u) {
        var d :| 0 <= d < |s.cpus| && s.cpus[d].cur == u;
        assert s'.cpus[d].cur == u;
      }
    }
  }

  lemma NextKeepsInv(s: System, step: Step)
    requires Inv(s) && Enabled(s, step)
    ensures Inv(Next(s, step))
  {
    hide Inv, Next, Enabled;
    match step
    case Fork(c, t) => ForkKeepsInv(s, c, t);
    case Hand(c, t) => HandKeepsInv(s, c, t);
    case _ => LocalStepKeepsInv(s, step);
  }

  /** Leaving thread_switch a thread has the level it came in with, no spinlock, and interrupts to match. */
  lemma LeaveRestores(s: System, c: nat)
    requires Inv(s) && Enabled(s, Leave(c))
    ensures var s', t := Next(s, Leave(c)), s.cpus[c].cur;
      t in s.threads && c < |s'.cpus| && s'.cpus[c].cur == t && t in s'.threads && s'.cpus[c].spinlocks == 0 &&
      s'.threads[t].curspl == s'.threads[t].count == s.threads[t].saved &&
      (s'.cpus[c].irqOff <==> s.threads[t].saved == IPL_HIGH)
  {
    assert CpuOk(s, c) && ParkedOk(s, s.cpus[c].cur);
  }

  /** Thread t begins a thread_switch. */
  ghost predicate EntersSwitch(s: System, step: Step, t: Tid) {
    (step.Yield? || step.Sleep?) && step.c < |s.cpus| && s.cpus[step.c].cur == t
  }

  /** The level a thread will leave thread_switch with is fixed when it comes in, whatever others do meanwhile. */
  lemma SavedIsKept(s: System, step: Step, t: Tid)
    requires Inv(s) && Enabled(s, step) && t in s.threads
    ensures t in Next(s, step).threads
    ensures Next(s, step).threads[t].saved ==
      if EntersSwitch(s, step, t) then s.threads[t].curspl else s.threads[t].saved
  {
  }

  /** A thread's level changes by its own splx, goes up as it enters a switch and comes back as it leaves it. */
  lemma LevelAfter(s: System, step: Step, t: Tid)
    requires Inv(s) && Enabled(s, step) && t in s.threads
    ensures t in Next(s, step).threads
    ensures Next(s, step).threads[t].curspl ==
      if s.cpus[step.c].cur != t then s.threads[t].curspl
      else match step
        case Level(_, spl) => spl
        case Yield(_) => IPL_HIGH
        case Sleep(_) => IPL_HIGH
        case Leave(_) => s.threads[t].saved
        case _ => s.threads[t].curspl
  {
  }

  /** What a step does to its CPU: the spinlocks it holds, where it stands in a switch, and which thread it runs. */
  lemma CpuAfter(s: System, step: Step)
    requires Inv(s) && Enabled(s, step)
    ensures var s' := Next(s, step);
      |s'.cpus| == |s.cpus| && forall d :: 0 <= d < |s.cpus| && d != step.c ==> s'.cpus[d] == s.cpus[d]
    ensures var cpu, cpu' := s.cpus[step.c], Next(s, step).cpus[step.c];
      cpu'.cur == if step.Hand? then step.t else cpu.cur
    ensures var cpu, cpu' := s.cpus[step.c], Next(s, step).cpus[step.c];
      cpu'.spinlocks == if step.Take? || step.Yield? || step.Wake? then cpu.spinlocks + 1
                        else if step.Drop? || step.Rest? || step.Leave? then cpu.spinlocks - 1
                        else cpu.spinlocks
    ensures var cpu, cpu' := s.cpus[step.c], Next(s, step).cpus[step.c];
      cpu'.mode == if step.Yield? || step.Sleep? || step.Wake? then Switching
                   else if step.Rest? then Idling
                   else if step.Leave? then Normal
                   else cpu.mode
    ensures Next(s, step).threads.Keys == s.threads.Keys + if step.Fork? then {step.t} else {}
  {
  }

  // ---------------------------------------------------------------- runs

  ghost predicate Moves(s: System, step: Step, s': System) {
    Enabled(s, step) && s' == Next(s, step)
  }

  ghost predicate Run(ss: seq<System>, steps: seq<Step>) {
    |ss| == |steps| + 1 && forall i :: 0 <= i < |steps| ==> Moves(ss[i], steps[i], After(ss, i))
  }

  ghost function After(ss: seq<System>, i: nat): System
    requires i + 1 < |ss|
  {
    ss[i + 1]
  }

  function BootThread(t: Tid): Thread { Thread(1, IPL_HIGH, IPL_NONE) }

  /** CPUs just created: the boot threads at high level, counting one. */
  function Boot(n: nat): System {
    System(seq(n, i => Cpu(i, 0, true, Normal)), map t | 0 <= t < n :: BootThread(t))
  }

  lemma BootInv(n: nat)
    ensures Inv(Boot(n))
  {
    var s := Boot(n);
    forall t | t in s.threads
      ensures ParkedOk(s, t)
    {
      assert s.cpus[t].cur == t;
    }
  }

  /**
   * In every run interrupts are off on a CPU exactly while its current thread's count, the sum of its parts, is
   * positive.
   */
  lemma {:induction false} RunSafe(ss: seq<System>, steps: seq<Step>, n: nat, i: nat, c: nat)
    requires Run(ss, steps) && ss[0] == Boot(n) && i < |ss|
    ensures Inv(ss[i])
    ensures c < |ss[i].cpus| ==> ss[i].cpus[c].cur in ss[i].threads && LocalOk(LocalOf(ss[i], c))
  {
    hide Enabled, Next, Boot, LocalOk;
    if i == 0 {
      BootInv(n);
    } else {
      RunSafe(ss, steps, n, i - 1, c);
      assert Moves(ss[i - 1], steps[i - 1], After(ss, i - 1));
      hide Inv;
      NextKeepsInv(ss[i - 1], steps[i - 1]);
    }
    if c < |ss[i].cpus| {
      AgreesAt(ss[i], c);
    }
  }

  lemma AgreesAt(s: System, c: nat)
    requires Inv(s) && c < |s.cpus|
    ensures s.cpus[c].cur in s.threads && LocalOk(LocalOf(s, c))
  {
    assert CpuOk(s, c);
  }

  /** Until a thread that entered thread_switch at step m enters it again, the level it came in with stays saved. */
  lemma {:induction false} LevelStaysSaved(ss: seq<System>, steps: seq<Step>, n0: nat, m: nat, n: nat, t: Tid)
    requires Run(ss, steps) && ss[0] == Boot(n0) && m < n <= |steps|
    requires EntersSwitch(ss[m], steps[m], t)
    requires forall k :: m < k < n ==> !EntersSwitch(ss[k], steps[k], t)
    ensures t in ss[m].threads && t in ss[n].threads && ss[n].threads[t].saved == ss[m].threads[t].curspl
  {
    hide Inv, Enabled, Next, Boot;
    RunSafe(ss, steps, n0, n - 1, 0);
    RunSafe(ss, steps, n0, m, steps[m].c);
    assert Moves(ss[n - 1], steps[n - 1], After(ss, n - 1)) && After(ss, n - 1) == ss[n];
    if m < n - 1 {
      LevelStaysSaved(ss, steps, n0, m, n - 1, t);
      assert !EntersSwitch(ss[n - 1], steps[n - 1], t);
    }
    SavedIsKept(ss[n - 1], steps[n - 1], t);
  }

  /** A thread that entered thread_switch at step m and leaves it at step n, on whatever CPU, has its old level back. */
  lemma SwitchRestoresLevel(ss: seq<System>, steps: seq<Step>, n0: nat, m: nat, n: nat, c: nat, t: Tid)
    requires Run(ss, steps) && ss[0] == Boot(n0) && m < n < |steps|
    requires EntersSwitch(ss[m], steps[m], t)
    requires forall k :: m < k < n ==> !EntersSwitch(ss[k], steps[k], t)
    requires steps[n] == Leave(c) && c < |ss[n].cpus| && ss[n].cpus[c].cur == t
    ensures t in ss[m].threads && t in ss[n + 1].threads && c < |ss[n + 1].cpus| && ss[n + 1].cpus[c].cur == t
    ensures ss[n + 1].threads[t].curspl == ss[m].threads[t].curspl && ss[n + 1].cpus[c].spinlocks == 0
    ensures ss[n + 1].cpus[c].irqOff <==> ss[m].threads[t].curspl == IPL_HIGH
  {
    hide Inv, Enabled, Next, Boot;
    LevelStaysSaved(ss, steps, n0, m, n, t);
    RunSafe(ss, steps, n0, n, c);
    assert Moves(ss[n], steps[n], After(ss, n)) && After(ss, n) == ss[n + 1];
    LeaveRestores(ss[n], c);
  }

  lemma {:induction false} StartLevelStaysSaved(ss: seq<System>, steps: seq<Step>, n0: nat, m: nat, n: nat, t: Tid)
    requires Run(ss, steps) && ss[0] == Boot(n0) && m < n <= |steps| && steps[m].Fork? && steps[m].t == t
    requires forall k :: m < k < n ==> !EntersSwitch(ss[k], steps[k], t)
    ensures t in ss[n].threads && ss[n].threads[t].saved == IPL_NONE
  {
    hide Inv, Enabled, Next, Boot;
    RunSafe(ss, steps, n0, n - 1, 0);
    assert Moves(ss[n - 1], steps[n - 1], After(ss, n - 1)) && After(ss, n - 1) == ss[n];
    if m < n - 1 {
      StartLevelStaysSaved(ss, steps, n0, m, n - 1, t);
      assert !EntersSwitch(ss[n - 1], steps[n - 1], t);
      SavedIsKept(ss[n - 1], steps[n - 1], t);
    } else {
      NewThread(ss[m], steps[m].c, t);
    }
  }

  lemma NewThread(s: System, c: nat, t: Tid)
    requires Enabled(s, Fork(c, t))
    ensures t !in s.threads && t in Next(s, Fork(c, t)).threads && Next(s, Fork(c, t)).threads[t].saved == IPL_NONE
  {
  }

  /** In every run a new thread starts, on whatever CPU, at the low level, without a spinlock, with interrupts on. */
  lemma NewThreadStartsLow(ss: seq<System>, steps: seq<Step>, n0: nat, m: nat, n: nat, c: nat, t: Tid)
    requires Run(ss, steps) && ss[0] == Boot(n0) && m < n < |steps| && steps[m].Fork? && steps[m].t == t
    requires forall k :: m < k < n ==> !EntersSwitch(ss[k], steps[k], t)
    requires steps[n] == Leave(c) && c < |ss[n].cpus| && ss[n].cpus[c].cur == t
    ensures t in ss[n + 1].threads && c < |ss[n + 1].cpus| && ss[n + 1].cpus[c].cur == t
    ensures ss[n + 1].threads[t].curspl == IPL_NONE && ss[n + 1].cpus[c].spinlocks == 0 && !ss[n + 1].cpus[c].irqOff
  {
    hide Inv, Enabled, Next, Boot;
    StartLevelStaysSaved(ss, steps, n0, m, n, t);
    RunSafe(ss, steps, n0, n, c);
    assert Moves(ss[n], steps[n], After(ss, n)) && After(ss, n) == ss[n + 1];
    LeaveRestores(ss[n], c);
  }
}
