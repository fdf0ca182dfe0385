/**
 * Semaphores, locks and condition variables.  Every section run under an object's spinlock is one step; a thread
 * that a wakeup has taken off the wait channel tests again later, and others may get there first.
 */
module Synch {

  import opened Basics

  type Tid = int

  const UINT: nat := 0x1_0000_0000

  /** The threads asleep on a wait channel, and those taken off it that have not tested again. */
  datatype Waiters = Waiters(asleep: seq<Tid>, woken: set<Tid>)

  ghost predicate WaitersOk(w: Waiters) {
    Distinct(w.asleep) && forall t :: t in w.asleep ==> t !in w.woken
  }

  /** wchan_wakeone: the thread waiting longest. */
  function WakeOne(w: Waiters): Waiters {
    if w.asleep == [] then w else Waiters(w.asleep[1..], w.woken + {w.asleep[0]})
  }

  function FallAsleep(w: Waiters, t: Tid): Waiters {
    Waiters(w.asleep + [t], w.woken - {t})
  }

  /** t is not waiting here at all, or has been woken and now tests again. */
  predicate MayTest(w: Waiters, t: Tid) {
    t !in w.asleep
  }

  /** A wakeup takes the first sleeper and nobody else, and keeps the others in order. */
  lemma WakeOneOk(w: Waiters)
    requires WaitersOk(w)
    ensures WaitersOk(WakeOne(w)) && Turn(w.asleep, w.asleep != [], WakeOne(w).asleep)
    ensures WakeOne(w).woken == w.woken + if w.asleep == [] then {} else {w.asleep[0]}
    ensures w.asleep != [] ==> w.asleep[0] !in w.woken && |WakeOne(w).woken| == |w.woken| + 1
  {
    if w.asleep != [] {
      assert w.asleep[0] in w.asleep;
      assert forall i :: 0 <= i < |w.asleep| - 1 ==> w.asleep[1..][i] == w.asleep[i + 1];
    }
  }

  // ---------------------------------------------------------------- semaphores

  /** The count, the waiters, and how many Vs and Ps have been completed. */
  datatype SemState = SemState(count: nat, w: Waiters, vs: nat, ps: nat)

  /** One pass of the loop in P: take a unit, or sleep when there is none. */
  function TryP(s: SemState, t: Tid): SemState {
    if s.count == 0 then s.(w := FallAsleep(s.w, t))
    else s.(count := s.count - 1, w := s.w.(woken := s.w.woken - {t}), ps := s.ps + 1)
  }

  /** V, where the count does not wrap: the code asserts as much. */
  function DoV(s: SemState): SemState {
    s.(count := s.count + 1, w := WakeOne(s.w), vs := s.vs + 1)
  }

  /** No wakeup is ever lost: while threads sleep, each unit available has a woken thread on its way to it. */
  ghost predicate SemInv(s: SemState, initial: nat) {
    WaitersOk(s.w) && s.count + s.ps == initial + s.vs && (s.w.asleep != [] ==> s.count <= |s.w.woken|)
  }

  datatype SemStep = PStep(t: Tid) | VStep

  ghost predicate SemNext(s: SemState, step: SemStep, s': SemState) {
    match step
    case PStep(t) => MayTest(s.w, t) && s' == TryP(s, t)
    case VStep => s.count + 1 < UINT && s' == DoV(s)
  }

  lemma SemNextKeepsInv(s: SemState, step: SemStep, s': SemState, initial: nat)
    requires SemInv(s, initial) && SemNext(s, step, s')
    ensures SemInv(s', initial)
  {
    match step
    case PStep(t) =>
      if t in s.w.woken {
        assert |s.w.woken - {t}| == |s.w.woken| - 1;
      }
    case VStep => WakeOneOk(s.w);
  }

  ghost predicate SemRun(ss: seq<SemState>, steps: seq<SemStep>) {
    |ss| == |steps| + 1 && forall i :: 0 <= i < |steps| ==> SemNext(ss[i], steps[i], After(ss, i))
  }

  ghost function After<T>(ss: seq<T>, i: nat): T
    requires i + 1 < |ss|
  {
    ss[i + 1]
  }

  /**
   * In every run: nothing lost or made up, and if no woken thread is still to test, units and sleepers exclude each
   * other.
   */
  lemma {:induction false} SemRunSafe(ss: seq<SemState>, steps: seq<SemStep>, initial: nat, n: nat)
    requires SemRun(ss, steps) && ss[0] == SemState(initial, Waiters([], {}), 0, 0) && n < |ss|
    ensures SemInv(ss[n], initial)
    ensures ss[n].ps <= initial + ss[n].vs
    ensures ss[n].w.woken == {} ==> ss[n].count == 0 || ss[n].w.asleep == []
  {
    if n > 0 {
      SemRunSafe(ss, steps, initial, n - 1);
      assert After(ss, n - 1) == ss[n];
      SemNextKeepsInv(ss[n - 1], steps[n - 1], ss[n], initial);
    }
  }

  /** Who sleeps stays in line: a V serves the first, and P only adds at the end. */
  lemma SemTurn(s: SemState, step: SemStep, s': SemState, initial: nat)
    requires SemInv(s, initial) && SemNext(s, step, s')
    ensures Turn(s.w.asleep, step.VStep? && s.w.asleep != [], s'.w.asleep)
    ensures |s'.w.asleep| >= |s.w.asleep| - 1
  {
    WakeOneOk(s.w);
  }

  /** The Vs among steps m to n - 1. */
  function VsIn(steps: seq<SemStep>, m: nat, n: nat): nat
    requires m <= n <= |steps|
  {
    if m == n then 0 else VsIn(steps, m, n - 1) + if steps[n - 1].VStep? then 1 else 0
  }

  /** In every run a sleeper at place i of the wait channel sleeps through exactly the next i Vs. */
  lemma {:induction false} WokenInTurn(ss: seq<SemState>, steps: seq<SemStep>, initial: nat, m: nat, n: nat, t: Tid)
    requires SemRun(ss, steps) && ss[0] == SemState(initial, Waiters([], {}), 0, 0) && m <= n < |ss|
    requires forall k :: m <= k <= n ==> t in ss[k].w.asleep
    ensures Place(ss[n].w.asleep, t) + VsIn(steps, m, n) == Place(ss[m].w.asleep, t)
    ensures n < |steps| && steps[n].VStep? && Place(ss[n].w.asleep, t) == 0 ==> t in ss[n + 1].w.woken
  {
    hide SemNext, SemInv, Place;
    if m < n {
      WokenInTurn(ss, steps, initial, m, n - 1, t);
      SemRunSafe(ss, steps, initial, n - 1);
      SemRunSafe(ss, steps, initial, n);
      assert SemNext(ss[n - 1], steps[n - 1], After(ss, n - 1));
      SemTurn(ss[n - 1], steps[n - 1], ss[n], initial);
      SleepersDistinct(ss[n - 1], initial);
      SleepersDistinct(ss[n], initial);
      TurnPlace(ss[n - 1].w.asleep, steps[n - 1].VStep?, ss[n].w.asleep, t);
    }
    if n < |steps| && steps[n].VStep? {
      assert SemNext(ss[n], steps[n], After(ss, n));
      FirstIsWoken(ss[n], ss[n + 1]);
    }
  }

  lemma SleepersDistinct(s: SemState, initial: nat)
    requires SemInv(s, initial)
    ensures Distinct(s.w.asleep)
  {
  }

  lemma FirstIsWoken(s: SemState, s': SemState)
    requires SemNext(s, VStep, s')
    ensures s.w.asleep != [] ==> s.w.asleep[0] in s'.w.woken
  {
  }

  /** What a step of a semaphore means: one unit more or less, or one sleeper more. */
  lemma SemEffect(s: SemState, step: SemStep, s': SemState, initial: nat)
    requires SemInv(s, initial) && SemNext(s, step, s')
    ensures step.VStep? ==> s'.count == s.count + 1 && s'.ps == s.ps && s'.vs == s.vs + 1
    ensures step.PStep? && s.count > 0 ==> s'.count == s.count - 1 && s'.ps == s.ps + 1 && s'.w.asleep == s.w.asleep
    ensures step.PStep? && s.count == 0 ==> s'.count == 0 && s'.ps == s.ps && s'.w.asleep == s.w.asleep + [step.t]
    ensures step.PStep? ==> s'.vs == s.vs && s'.w.woken == s.w.woken - {step.t}
  {
  }

  class Semaphore {
    var count: nat
    var wchan: seq<Tid>
    ghost var woken: set<Tid>
    ghost var vs: nat
    ghost var ps: nat
    ghost const initial: nat

    ghost function State(): SemState
      reads this
    {
      SemState(count, Waiters(wchan, woken), vs, ps)
    }

    ghost predicate Valid()
      reads this
    {
      SemInv(State(), initial) && count < UINT
    }

    constructor (initialCount: nat)
      requires initialCount < UINT
      ensures Valid() && initial == initialCount && State() == SemState(initial, Waiters([], {}), 0, 0)
    {
      count, wchan, woken, vs, ps, initial := initialCount, [], {}, 0, 0, initialCount;
    }

    /** One locked section of P by thread t; done is false when t has gone to sleep. */
    method TestP(t: Tid) returns (done: bool)
      requires Valid() && t !in wchan
      modifies this
      ensures Valid() && State() == TryP(old(State()), t) && (done <==> old(count) > 0)
      ensures done ==> count == old(count) - 1 && wchan == old(wchan) && ps == old(ps) + 1
      ensures !done ==> count == 0 && wchan == old(wchan) + [t] && ps == old(ps)
      ensures woken == old(woken) - {t} && vs == old(vs)
    {
      SemNextKeepsInv(State(), PStep(t), TryP(State(), t), initial);
      woken := woken - {t};
      if count == 0 {
        wchan := wchan + [t];
        return false;
      }
      count := count - 1;
      ps := ps + 1;
      done := true;
    }

    /** V; the assertion in it fails exactly when the count wraps. */
    method V() returns (ok: bool)
      requires Valid()
      modifies this
      ensures ok <==> old(count) + 1 < UINT
      ensures ok ==> Valid() && State() == DoV(old(State())) && count == old(count) + 1 && vs == old(vs) + 1
      ensures ok ==> wchan == (if old(wchan) == [] then [] else old(wchan)[1..]) && ps == old(ps)
      ensures ok ==> woken == old(woken) + if old(wchan) == [] then {} else {old(wchan)[0]}
    {
      ghost var s := State();
      count := (count + 1) % UINT;
      if count == 0 {
        return false;
      }
      SemNextKeepsInv(s, VStep, DoV(s), initial);
      if wchan != [] {
        woken := woken + {wchan[0]};
        wchan := wchan[1..];
      }
      vs := vs + 1;
      ok := true;
    }
  }

  // ---------------------------------------------------------------- locks

  /** The holder, the waiters, and the threads between the end of an acquire and the start of a release. */
  datatype LockState = LockState(holder: Option<Tid>, w: Waiters, inside: set<Tid>)

  /** One pass of the loop in lock_acquire. */
  function TryAcquire(s: LockState, t: Tid): LockState {
    if s.holder.Some? then s.(w := FallAsleep(s.w, t))
    else LockState(Some(t), s.w.(woken := s.w.woken - {t}), s.inside + {t})
  }

  function DoRelease(s: LockState, t: Tid): LockState {
    LockState(None, WakeOne(s.w), s.inside - {t})
  }

  /** The holder alone is inside and is not waiting; a free lock with sleepers has a woken thread on its way. */
  ghost predicate LockInv(s: LockState) {
    WaitersOk(s.w) &&
    s.inside == (if s.holder.Some? then {s.holder.value} else {}) &&
    (s.holder.Some? ==> s.holder.value !in s.w.asleep && s.holder.value !in s.w.woken) &&
    (s.holder.None? && s.w.asleep != [] ==> s.w.woken != {})
  }

  datatype LockStep = AcquireStep(t: Tid) | ReleaseStep(t: Tid)

  /** A thread does not acquire a lock it holds, nor release one it does not: the code asserts both. */
  ghost predicate LockNext(s: LockState, step: LockStep, s': LockState) {
    match step
    case AcquireStep(t) => MayTest(s.w, t) && s.holder != Some(t) && s' == TryAcquire(s, t)
    case ReleaseStep(t) => s.holder == Some(t) && s' == DoRelease(s, t)
  }

  lemma LockNextKeepsInv(s: LockState, step: LockStep, s': LockState)
    requires LockInv(s) && LockNext(s, step, s')
    ensures LockInv(s')
  {
    WakeOneOk(s.w);
    if step.AcquireStep? && s.holder.Some? {
      assert FallAsleep(s.w, step.t).asleep[|s.w.asleep|] == step.t;
    }
  }

  ghost predicate LockRun(ss: seq<LockState>, steps: seq<LockStep>) {
    |ss| == |steps| + 1 && forall i :: 0 <= i < |steps| ==> LockNext(ss[i], steps[i], After(ss, i))
  }

  /** In every run at most one thread is inside, and a free lock with sleepers has been promised to someone. */
  lemma {:induction false} LockRunSafe(ss: seq<LockState>, steps: seq<LockStep>, n: nat)
    requires LockRun(ss, steps) && ss[0] == LockState(None, Waiters([], {}), {}) && n < |ss|
    ensures LockInv(ss[n])
    ensures forall t, u :: t in ss[n].inside && u in ss[n].inside ==> t == u
    ensures ss[n].holder == None && ss[n].w.asleep != [] ==> ss[n].w.woken != {}
  {
    hide LockNext, LockInv;
    if n == 0 {
      EmptyLock();
    } else {
      LockRunSafe(ss, steps, n - 1);
      assert After(ss, n - 1) == ss[n];
      LockNextKeepsInv(ss[n - 1], steps[n - 1], ss[n]);
    }
    LockInvMeans(ss[n]);
  }

  lemma EmptyLock()
    ensures LockInv(LockState(None, Waiters([], {}), {}))
  {
  }

  lemma LockInvMeans(s: LockState)
    requires LockInv(s)
    ensures forall t, u :: t in s.inside && u in s.inside ==> t == u
    ensures s.holder == None && s.w.asleep != [] ==> s.w.woken != {}
  {
  }

  /** The next step after an acquire that succeeded: t holds the lock, and others can only go to sleep. */
  lemma HeldOn(s: LockState, step: LockStep, s': LockState, t: Tid)
    requires LockInv(s) && LockNext(s, step, s') && s.holder == Some(t) && step != ReleaseStep(t)
    ensures s'.holder == Some(t) && step.AcquireStep? && step.t != t && s'.w.asleep == s.w.asleep + [step.t]
  {
  }

  /**
   * In every run: from an acquire by t that finds the lock free until t's release, t is the holder and alone inside,
   * and whoever else tries to acquire goes to sleep.
   */
  lemma {:induction false} HeldUntilReleased(ss: seq<LockState>, steps: seq<LockStep>, m: nat, n: nat, t: Tid)
    requires LockRun(ss, steps) && ss[0] == LockState(None, Waiters([], {}), {}) && m < n <= |steps|
    requires steps[m] == AcquireStep(t) && ss[m].holder == None
    requires forall k :: m < k < n ==> steps[k] != ReleaseStep(t)
    ensures ss[n].holder == Some(t) && ss[n].inside == {t}
    ensures n < |steps| && steps[n] != ReleaseStep(t) ==>
      steps[n].AcquireStep? && steps[n].t != t && ss[n + 1].w.asleep == ss[n].w.asleep + [steps[n].t]
    ensures n < |steps| && steps[n] == ReleaseStep(t) ==> ss[n + 1].holder == None
  {
    hide LockInv;
    LockRunSafe(ss, steps, n - 1);
    LockRunSafe(ss, steps, n);
    assert LockNext(ss[n - 1], steps[n - 1], After(ss, n - 1)) && After(ss, n - 1) == ss[n];
    if m < n - 1 {
      HeldUntilReleased(ss, steps, m, n - 1, t);
    }
    HolderAlone(ss[n]);
    if n < |steps| {
      assert LockNext(ss[n], steps[n], After(ss, n)) && After(ss, n) == ss[n + 1];
      if steps[n] != ReleaseStep(t) {
        HeldOn(ss[n], steps[n], ss[n + 1], t);
      }
    }
  }

  lemma HolderAlone(s: LockState)
    requires LockInv(s) && s.holder.Some?
    ensures s.inside == {s.holder.value}
  {
  }

  /** Who sleeps stays in line: a release wakes the first, and an acquire only adds at the end. */
  lemma LockTurn(s: LockState, step: LockStep, s': LockState)
    requires LockInv(s) && LockNext(s, step, s')
    ensures Turn(s.w.asleep, step.ReleaseStep? && s.w.asleep != [], s'.w.asleep)
    ensures step.ReleaseStep? && s.w.asleep != [] ==> s.w.asleep[0] in s'.w.woken
    ensures step.ReleaseStep? ==> s'.holder == None
  {
    WakeOneOk(s.w);
  }

  class Lock {
    var holder: Option<Tid>
    var wchan: seq<Tid>
    ghost var woken: set<Tid>
    ghost var inside: set<Tid>

    ghost function State(): LockState
      reads this
    {
      LockState(holder, Waiters(wchan, woken), inside)
    }

    ghost predicate Valid()
      reads this
    {
      LockInv(State())
    }

    constructor ()
      ensures Valid() && State() == LockState(None, Waiters([], {}), {})
    {
      holder, wchan, woken, inside := None, [], {}, {};
    }

    /** One locked section of lock_acquire by thread t; done is false when t has gone to sleep. */
    method TestAcquire(t: Tid) returns (done: bool)
      requires Valid() && t !in wchan && holder != Some(t)
      modifies this
      ensures Valid() && State() == TryAcquire(old(State()), t) && (done <==> old(holder) == None)
      ensures done ==> holder == Some(t) && t in inside && wchan == old(wchan)
      ensures !done ==> holder == old(holder) && inside == old(inside) && wchan == old(wchan) + [t]
      ensures woken == old(woken) - {t}
    {
      LockNextKeepsInv(State(), AcquireStep(t), TryAcquire(State(), t));
      woken := woken - {t};
      if holder != None {
        wchan := wchan + [t];
        return false;
      }
      holder := Some(t);
      inside := inside + {t};
      done := true;
    }

    /** lock_release */
    method Release(t: Tid)
      requires Valid() && holder == Some(t)
      modifies this
      ensures Valid() && State() == DoRelease(old(State()), t) && holder == None && t !in inside
      ensures wchan == (if old(wchan) == [] then [] else old(wchan)[1..])
      ensures woken == old(woken) + if old(wchan) == [] then {} else {old(wchan)[0]}
    {
      LockNextKeepsInv(State(), ReleaseStep(t), DoRelease(State(), t));
      holder := None;
      if wchan != [] {
        woken := woken + {wchan[0]};
        wchan := wchan[1..];
      }
      inside := inside - {t};
    }
  }

  // ---------------------------------------------------------------- condition variables

  /**
   * Where a thread is in cv_wait: not in it; holding the CV's spinlock with the lock still held; the same with the
   * lock released; on the CV's wait channel; taken off it by a signal; past the spinlock, acquiring the lock again.
   */
  datatype Phase = Out | Gate | Released | Asleep | Signalled | Reacquiring

  /**
   * A lock and a condition variable used with it: the CV's spinlock holder, its wait channel, and every thread's
   * phase.
   */
  datatype CvState = CvState(lock: LockState, gate: Option<Tid>, chan: seq<Tid>, phase: map<Tid, Phase>)

  function PhaseOf(s: CvState, t: Tid): Phase {
    if t in s.phase then s.phase[t] else Out
  }

  ghost predicate CvInv(s: CvState) {
    LockInv(s.lock) && Distinct(s.chan) &&
    (forall t :: PhaseOf(s, t) == Gate || PhaseOf(s, t) == Released ==> s.gate == Some(t)) &&
    (forall t :: t in s.chan <==> PhaseOf(s, t) == Asleep) &&
    (forall t :: PhaseOf(s, t) == Gate ==> s.lock.holder == Some(t)) &&
    (forall t :: PhaseOf(s, t) in {Released, Asleep, Signalled} ==>
       s.lock.holder != Some(t) && t !in s.lock.w.asleep && t !in s.lock.w.woken)
  }

  /**
   * Locking: a thread outside cv_wait, or in its last part, runs a section of lock_acquire or lock_release.
   * Enter, LetGo and GoToSleep are the three parts of cv_wait before the thread sleeps.  Signal and Broadcast need the
   * CV's spinlock, which a thread inside those parts holds; so does Resume, which follows a wakeup.
   */
  datatype CvStep =
    | Locking(step: LockStep)
    | Enter(t: Tid)
    | LetGo(t: Tid)
    | GoToSleep(t: Tid)
    | Signal(t: Tid)
    | Broadcast(t: Tid)
    | Resume(t: Tid)

  predicate CvEnabled(s: CvState, step: CvStep) {
    match step
    case Locking(AcquireStep(t)) =>
      PhaseOf(s, t) in {Out, Reacquiring} && MayTest(s.lock.w, t) && s.lock.holder != Some(t)
    case Locking(ReleaseStep(t)) => PhaseOf(s, t) == Out && s.lock.holder == Some(t)
    case Enter(t) => PhaseOf(s, t) == Out && s.lock.holder == Some(t) && s.gate == None
    case LetGo(t) => PhaseOf(s, t) == Gate
    case GoToSleep(t) => PhaseOf(s, t) == Released
    case Signal(t) => s.gate == None && PhaseOf(s, t) == Out
    case Broadcast(t) => s.gate == None && PhaseOf(s, t) == Out
    case Resume(t) => PhaseOf(s, t) == Signalled && s.gate == None
  }

  /** Signalling every thread on a list. */
  ghost function SignalAll(phase: map<Tid, Phase>, chan: seq<Tid>): map<Tid, Phase> {
    map t | t in phase.Keys + (set u | u in chan) :: if t in chan then Signalled else phase[t]
  }

  ghost function CvAfter(s: CvState, step: CvStep): CvState
    requires CvEnabled(s, step)
  {
    match step
    case Locking(AcquireStep(t)) =>
      s.(lock := TryAcquire(s.lock, t), phase := if s.lock.holder == None then s.phase[t := Out] else s.phase)
    case Locking(ReleaseStep(t)) => s.(lock := DoRelease(s.lock, t))
    case Enter(t) => s.(gate := Some(t), phase := s.phase[t := Gate])
    case LetGo(t) => s.(lock := DoRelease(s.lock, t), phase := s.phase[t := Released])
    case GoToSleep(t) => s.(gate := None, chan := s.chan + [t], phase := s.phase[t := Asleep])
    case Signal(_) =>
      if s.chan == [] then s else s.(chan := s.chan[1..], phase := s.phase[s.chan[0] := Signalled])
    case Broadcast(_) => s.(chan := [], phase := SignalAll(s.phase, s.chan))
    case Resume(t) => s.(phase := s.phase[t := Reacquiring])
  }

  lemma CvLockingKeepsInv(s: CvState, step: CvStep)
    requires CvInv(s) && CvEnabled(s, step) && (step.Locking? || step.LetGo?)
    ensures CvInv(CvAfter(s, step))
  {
    var s' := CvAfter(s, step);
    var l := if step.LetGo? then ReleaseStep(step.t) else step.step;
    LockNextKeepsInv(s.lock, l, s'.lock);
    hide LockInv;
    forall t
      ensures PhaseOf(s', t) == if step.LetGo? && t == step.t then Released
                                else if l.AcquireStep? && s.lock.holder == None && t == l.t then Out else PhaseOf(s, t)
    {
    }
  }

  lemma CvGateKeepsInv(s: CvState, step: CvStep)
    requires CvInv(s) && CvEnabled(s, step) && (step.Enter? || step.GoToSleep? || step.Resume?)
    ensures CvInv(CvAfter(s, step))
  {
    hide LockInv;
    var s' := CvAfter(s, step);
    assert forall t :: t != step.t ==> PhaseOf(s', t) == PhaseOf(s, t);
  }

  lemma CvSignalKeepsInv(s: CvState, step: CvStep)
    requires CvInv(s) && CvEnabled(s, step) && (step.Signal? || step.Broadcast?)
    ensures CvInv(CvAfter(s, step))
  {
    hide LockInv;
    var s' := CvAfter(s, step);
    if step.Signal? && s.chan != [] {
      assert forall i :: 0 <= i < |s.chan| - 1 ==> s.chan[1..][i] == s.chan[i + 1];
      assert s.chan == [s.chan[0]] + s.chan[1..];
    }
    assert forall t :: PhaseOf(s', t) != PhaseOf(s, t) ==> t in s.chan && PhaseOf(s', t) == Signalled;
  }

  lemma CvNextKeepsInv(s: CvState, step: CvStep)
    requires CvInv(s) && CvEnabled(s, step)
    ensures CvInv(CvAfter(s, step))
  {
    hide CvInv, CvEnabled, CvAfter;
    match step
    case Locking(_) => CvLockingKeepsInv(s, step);
    case LetGo(_) => CvLockingKeepsInv(s, step);
    case Signal(_) => CvSignalKeepsInv(s, step);
    case Broadcast(_) => CvSignalKeepsInv(s, step);
    case _ => CvGateKeepsInv(s, step);
  }

  /**
   * No signal falls into the gap between a waiter's release of the lock and its falling asleep: whenever a signal can
   * be sent, every thread that has let go of the lock inside cv_wait is on the channel or already signalled, and the
   * signal takes the one waiting longest.
   */
  lemma SignalSeesWaiters(s: CvState, u: Tid)
    requires CvInv(s) && CvEnabled(s, Signal(u))
    ensures forall t :: PhaseOf(s, t) != Gate && PhaseOf(s, t) != Released
    ensures s.chan != [] ==> PhaseOf(CvAfter(s, Signal(u)), s.chan[0]) == Signalled && PhaseOf(s, s.chan[0]) == Asleep
    ensures forall t ::
      PhaseOf(CvAfter(s, Broadcast(u)), t) == if PhaseOf(s, t) == Asleep then Signalled else PhaseOf(s, t)
  {
    assert s.chan != [] ==> s.chan[0] in s.chan;
  }

  /** The way through cv_wait: each part of it follows the one before, and only a wakeup ends the sleep. */
  lemma PhaseAfter(s: CvState, step: CvStep, t: Tid)
    requires CvInv(s) && CvEnabled(s, step)
    ensures PhaseOf(CvAfter(s, step), t) ==
      if step == Enter(t) then Gate
      else if step == LetGo(t) then Released
      else if step == GoToSleep(t) then Asleep
      else if step.Signal? && s.chan != [] && s.chan[0] == t then Signalled
      else if step.Broadcast? && PhaseOf(s, t) == Asleep then Signalled
      else if step == Resume(t) then Reacquiring
      else if step == Locking(AcquireStep(t)) && s.lock.holder == None then Out
      else PhaseOf(s, t)
  {
    hide LockInv;
  }

  /** What the steps do to the lock, the CV's spinlock and its wait channel, on which a signal takes the first. */
  lemma CvEffect(s: CvState, step: CvStep)
    requires CvInv(s) && CvEnabled(s, step)
    ensures var s' := CvAfter(s, step);
      match step
      case Locking(l) => LockNext(s.lock, l, s'.lock)
      case LetGo(t) => LockNext(s.lock, ReleaseStep(t), s'.lock) && s'.lock.holder == None
      case _ => s'.lock == s.lock
    ensures CvAfter(s, step).gate == if step.Enter? then Some(step.t) else if step.GoToSleep? then None else s.gate
    ensures !step.Broadcast? ==> Turn(s.chan, step.Signal? && s.chan != [], CvAfter(s, step).chan)
    ensures step.GoToSleep? ==> CvAfter(s, step).chan == s.chan + [step.t]
    ensures step.Broadcast? ==> CvAfter(s, step).chan == []
  {
    hide LockInv;
  }

  ghost predicate CvMoves(s: CvState, step: CvStep, s': CvState) {
    CvEnabled(s, step) && s' == CvAfter(s, step)
  }

  ghost predicate CvRun(ss: seq<CvState>, steps: seq<CvStep>) {
    |ss| == |steps| + 1 && forall i :: 0 <= i < |steps| ==> CvMoves(ss[i], steps[i], After(ss, i))
  }

  /** From an unused lock and CV the invariant holds throughout every run. */
  lemma {:induction false} CvRunSafe(ss: seq<CvState>, steps: seq<CvStep>, n: nat)
    requires CvRun(ss, steps) && ss[0] == CvState(LockState(None, Waiters([], {}), {}), None, [], map[]) && n < |ss|
    ensures CvInv(ss[n])
  {
    if n == 0 {
      EmptyLock();
    } else {
      hide CvInv, CvAfter, CvEnabled;
      CvRunSafe(ss, steps, n - 1);
      assert After(ss, n - 1) == ss[n] && CvMoves(ss[n - 1], steps[n - 1], ss[n]);
      CvNextKeepsInv(ss[n - 1], steps[n - 1]);
    }
  }

  /** In every run a thread comes out of cv_wait with the lock, and having been woken since it let go of it. */
  lemma WaitReturnsWithLock(ss: seq<CvState>, steps: seq<CvStep>, n: nat, t: Tid)
    requires CvRun(ss, steps) && ss[0] == CvState(LockState(None, Waiters([], {}), {}), None, [], map[])
    requires n < |steps| && PhaseOf(ss[n], t) != Out && PhaseOf(ss[n + 1], t) == Out
    ensures PhaseOf(ss[n], t) == Reacquiring && ss[n].lock.holder == None && ss[n + 1].lock.holder == Some(t)
  {
    hide CvInv, CvAfter, CvEnabled, PhaseOf;
    CvRunSafe(ss, steps, n);
    assert CvMoves(ss[n], steps[n], After(ss, n)) && After(ss, n) == ss[n + 1];
    PhaseAfter(ss[n], steps[n], t);
    OutByAcquire(ss[n], t);
    CvEffect(ss[n], steps[n]);
  }

  lemma OutByAcquire(s: CvState, t: Tid)
    ensures CvEnabled(s, Locking(AcquireStep(t))) && PhaseOf(s, t) != Out ==> PhaseOf(s, t) == Reacquiring
  {
  }

  /** In every run a sleeper at place i that no broadcast wakes sleeps through exactly the next i signals. */
  lemma {:induction false} SignalledInTurn(ss: seq<CvState>, steps: seq<CvStep>, m: nat, n: nat, t: Tid)
    requires CvRun(ss, steps) && ss[0] == CvState(LockState(None, Waiters([], {}), {}), None, [], map[])
    requires m <= n < |ss|
    requires forall k :: m <= k <= n ==> t in ss[k].chan
    ensures Place(ss[n].chan, t) + SignalsIn(steps, m, n) == Place(ss[m].chan, t)
  {
    hide CvInv, CvAfter, CvEnabled, Place;
    if m < n {
      SignalledInTurn(ss, steps, m, n - 1, t);
      CvRunSafe(ss, steps, n - 1);
      CvRunSafe(ss, steps, n);
      assert CvMoves(ss[n - 1], steps[n - 1], After(ss, n - 1)) && After(ss, n - 1) == ss[n];
      CvEffect(ss[n - 1], steps[n - 1]);
      ChannelDistinct(ss[n - 1]);
      ChannelDistinct(ss[n]);
      TurnPlace(ss[n - 1].chan, steps[n - 1].Signal?, ss[n].chan, t);
    }
  }

  lemma ChannelDistinct(s: CvState)
    requires CvInv(s)
    ensures Distinct(s.chan)
  {
  }

  /** The signals among steps m to n - 1. */
  function SignalsIn(steps: seq<CvStep>, m: nat, n: nat): nat
    requires m <= n <= |steps|
  {
    if m == n then 0 else SignalsIn(steps, m, n - 1) + if steps[n - 1].Signal? then 1 else 0
  }

  /**
   * So in every run: a thread that has released the lock inside cv_wait before a signal is sent is asleep on the
   * channel or signalled when it is sent.
   */
  lemma NoMissedSignal(ss: seq<CvState>, steps: seq<CvStep>, m: nat, n: nat, t: Tid)
    requires CvRun(ss, steps) && ss[0] == CvState(LockState(None, Waiters([], {}), {}), None, [], map[])
    requires m < n < |steps| && steps[m] == LetGo(t) && (steps[n].Signal? || steps[n].Broadcast?)
    requires forall k :: m < k < n ==> steps[k] != Locking(AcquireStep(t))
    ensures PhaseOf(ss[n], t) in {Asleep, Signalled, Reacquiring}
    ensures t in ss[n].chan <==> PhaseOf(ss[n], t) == Asleep
  {
    CvRunSafe(ss, steps, n);
    StillWaiting(ss, steps, m, n, t);
    assert CvMoves(ss[n], steps[n], After(ss, n));
    SignalSeesWaiters(ss[n], steps[n].t);
  }

  lemma {:induction false} StillWaiting(ss: seq<CvState>, steps: seq<CvStep>, m: nat, n: nat, t: Tid)
    requires CvRun(ss, steps) && m < n <= |steps| && steps[m] == LetGo(t)
    requires forall k :: m < k < n ==> steps[k] != Locking(AcquireStep(t))
    ensures PhaseOf(ss[n], t) in {Released, Asleep, Signalled, Reacquiring}
  {
    hide CvAfter, CvEnabled, PhaseOf;
    assert After(ss, n - 1) == ss[n] && CvMoves(ss[n - 1], steps[n - 1], ss[n]);
    if m < n - 1 {
      StillWaiting(ss, steps, m, n - 1, t);
      StaysWaiting(ss[n - 1], steps[n - 1], t);
    } else {
      JustLetGo(ss[m], t);
    }
  }

  lemma JustLetGo(s: CvState, t: Tid)
    requires CvEnabled(s, LetGo(t))
    ensures PhaseOf(CvAfter(s, LetGo(t)), t) == Released
  {
  }

  /** Nothing but acquiring the lock again ends a wait that has let go of it. */
  lemma StaysWaiting(s: CvState, step: CvStep, t: Tid)
    requires CvEnabled(s, step) && step != Locking(AcquireStep(t))
    requires PhaseOf(s, t) in {Released, Asleep, Signalled, Reacquiring}
    ensures PhaseOf(CvAfter(s, step), t) in {Released, Asleep, Signalled, Reacquiring}
  {
  }
}
