/** The mutex and condition variable semaphore (fio4emu/fio_sem.c), one step per access made
    under its mutex. Any number of threads call down, trylock and up in any order; the
    condition variable may wake a sleeper spuriously, and a signal wakes an arbitrary one. */
module FioSem {
  import opened Counting
  import opened Options

  datatype PC =
    | Outside                    // in no call, holding no unit of the semaphore
    | DownTest                   // mutex held: while (!value)
    | Asleep                     // in pthread_cond_wait, mutex released
    | Woken                      // signalled or spuriously woken, mutex not yet retaken
    | DownExit                   // unit taken, mutex still held
    | TryTest                    // mutex held: if (value)
    | TryExit                    // trylock failed, mutex still held
    | Holding                    // the call returned with a unit
    | UpTest                     // mutex held: do_wake = !value && waiters; value++
    | UpSignal(doWake: bool)     // mutex held: if (do_wake) signal
    | UpExit                     // mutex still held

  datatype State = State(value: int, waiters: int, mutex: Option<nat>, pc: map<nat, PC>)

  datatype Action =
    | CallDown(t: nat)
    | CallTry(t: nat)
    | CallUp(t: nat)
    | Run(t: nat)                              // the next statement of t
    | Signal(t: nat, sleeper: Option<nat>)     // pthread_cond_signal by t
    | Spurious(t: nat)

  function At(s: State, t: nat): PC {
    if t in s.pc then s.pc[t] else Outside
  }

  function Go(s: State, t: nat, p: PC): State {
    s.(pc := s.pc[t := p])
  }

  function Lock(s: State, t: nat): State {
    s.(mutex := Some(t))
  }

  function Unlock(s: State): State {
    s.(mutex := None)
  }

  predicate SomeoneAsleep(s: State) {
    exists t :: t in s.pc && s.pc[t] == Asleep
  }

  /** Whether an action can happen. An up may come from a holder or, as for the start-up semaphores,
      from a thread that holds nothing. */
  predicate Enabled(s: State, a: Action) {
    match a
    case CallDown(t) => At(s, t).Outside? && s.mutex.None?
    case CallTry(t) => At(s, t).Outside? && s.mutex.None?
    case CallUp(t) => (At(s, t).Outside? || At(s, t).Holding?) && s.mutex.None?
    case Run(t) =>
      var p := At(s, t);
      if p.Woken? then s.mutex.None?
      else p.DownTest? || p.DownExit? || p.TryTest? || p.TryExit? || p.UpTest? || p.UpExit?
    case Signal(t, w) =>
      && At(s, t).UpSignal?
      && (w.Some? ==> At(s, t).doWake && At(s, w.value) == Asleep)
      && (At(s, t).doWake && SomeoneAsleep(s) ==> w.Some?)
    case Spurious(t) => At(s, t) == Asleep
  }

  function Apply(s: State, a: Action): State {
    match a
    case CallDown(t) => Lock(Go(s, t, DownTest), t)
    case CallTry(t) => Lock(Go(s, t, TryTest), t)
    case CallUp(t) => Lock(Go(s, t, UpTest), t)
    case Run(t) =>
      (match At(s, t)
       case DownTest =>
         if s.value == 0 then Unlock(Go(s.(waiters := s.waiters + 1), t, Asleep))
         else Go(s.(value := s.value - 1), t, DownExit)
       case Woken => Lock(Go(s.(waiters := s.waiters - 1), t, DownTest), t)
       case DownExit => Unlock(Go(s, t, Holding))
       case TryTest => if s.value == 0 then Go(s, t, TryExit) else Go(s.(value := s.value - 1), t, DownExit)
       case TryExit => Unlock(Go(s, t, Outside))
       case UpTest => Go(s.(value := s.value + 1), t, UpSignal(s.value == 0 && s.waiters != 0))
       case UpExit => Unlock(Go(s, t, Outside))
       case _ => s)
    case Signal(t, w) =>
      var s1 := Go(s, t, UpExit);
      if w.Some? then Go(s1, w.value, Woken) else s1
    case Spurious(t) => Go(s, t, Woken)
  }

  ghost predicate Next(s: State, s': State) {
    exists a :: Enabled(s, a) && s' == Apply(s, a)
  }

  ghost predicate Init(s: State, value: nat) {
    s.value == value && s.waiters == 0 && s.mutex.None? && forall t :: t in s.pc ==> s.pc[t] == Outside
  }

  ghost predicate IsRun(run: seq<State>, value: nat) {
    && run != []
    && Init(run[0], value)
    && Connected(run)
  }

  ghost predicate Connected(run: seq<State>) {
    forall i :: 0 <= i < |run| - 1 ==> Next(run[i], run[i+1])
  }

  // ----- waiters and the mutex -----

  ghost function Waiting(): PC -> bool {
    (p: PC) => p.Asleep? || p.Woken?
  }

  predicate UnderMutex(p: PC) {
    p.DownTest? || p.DownExit? || p.TryTest? || p.TryExit? || p.UpTest? || p.UpSignal? || p.UpExit?
  }

  ghost predicate Inv(s: State) {
    && s.value >= 0
    && s.waiters == Count(s.pc, Waiting())
    && (forall t :: t in s.pc && UnderMutex(s.pc[t]) ==> s.mutex == Some(t))
    && (s.mutex.Some? ==> s.mutex.value in s.pc && UnderMutex(s.pc[s.mutex.value]))
  }

  lemma InvKept(s: State, a: Action)
    requires Inv(s) && Enabled(s, a)
    ensures Inv(Apply(s, a))
  {
    var s' := Apply(s, a);
    if a.Signal? && a.sleeper.Some? {
      var s1 := Go(s, a.t, UpExit);
      CountUpdate(s.pc, a.t, UpExit, Waiting());
      CountUpdate(s1.pc, a.sleeper.value, Woken, Waiting());
    } else {
      CountUpdate(s.pc, a.t, s'.pc[a.t], Waiting());
    }
  }

  lemma {:induction false} RunInv(run: seq<State>, value: nat, i: nat)
    requires IsRun(run, value) && i < |run|
    ensures Inv(run[i])
  {
    if i == 0 {
      CountZero(run[0].pc, Waiting());
    } else {
      RunInv(run, value, i - 1);
      assert Next(run[i-1], run[i-1+1]);
      var a :| Enabled(run[i-1], a) && run[i] == Apply(run[i-1], a);
      InvKept(run[i-1], a);
    }
  }

  // ----- no lost wakeup -----

  /** While a unit is available, a sleeper is covered: some thread is on its way to take the unit,
      or an up is about to signal. */
  ghost predicate Covered(s: State) {
    s.value >= 1 && SomeoneAsleep(s)
    ==> exists t :: t in s.pc && (s.pc[t] == Woken || s.pc[t] == DownTest || s.pc[t] == UpSignal(true))
  }

  lemma CoveredKept(s: State, a: Action)
    requires Inv(s) && Covered(s) && Enabled(s, a) && s.value <= 1 && Apply(s, a).value <= 1
    ensures Covered(Apply(s, a))
  {
    var s' := Apply(s, a);
    if s'.value >= 1 && SomeoneAsleep(s') {
      if a.Run? && At(s, a.t).UpTest? {
        var w :| w in s'.pc && s'.pc[w] == Asleep;
        CountPositive(s.pc, w, Waiting());
        assert s'.pc[a.t] == UpSignal(true);
      } else if a.Signal? && a.sleeper.Some? {
        assert s'.pc[a.sleeper.value] == Woken;
      } else {
        assert s.value >= 1;
        var w :| w in s'.pc && s'.pc[w] == Asleep;
        assert w in s.pc && s.pc[w] == Asleep;
        var t :| t in s.pc && (s.pc[t] == Woken || s.pc[t] == DownTest || s.pc[t] == UpSignal(true));
        assert t in s'.pc;
        if a.t == t {
          assert s.pc[t] == Woken;
        }
      }
    }
  }

  ghost predicate Bounded(run: seq<State>, bound: nat) {
    forall i :: 0 <= i < |run| ==> run[i].value <= bound
  }

  lemma {:induction false} RunCovered(run: seq<State>, value: nat, i: nat)
    requires IsRun(run, value) && Bounded(run, 1) && i < |run|
    ensures Covered(run[i])
  {
    if i > 0 {
      RunCovered(run, value, i - 1);
      RunInv(run, value, i - 1);
      assert Next(run[i-1], run[i-1+1]);
      var a :| Enabled(run[i-1], a) && run[i] == Apply(run[i-1], a);
      CoveredKept(run[i-1], a);
    }
  }

  /** No lost wakeup: with the mutex free, an available unit and a sleeper, some waiter has been woken
      and has not yet resumed. */
  ghost predicate NoLostWakeup(s: State) {
    s.mutex.None? && s.value >= 1 && SomeoneAsleep(s) ==> exists t :: t in s.pc && s.pc[t] == Woken
  }

  lemma NoWakeupIsLost(run: seq<State>, value: nat, i: nat)
    requires IsRun(run, value) && Bounded(run, 1) && i < |run|
    ensures NoLostWakeup(run[i])
  {
    RunCovered(run, value, i);
    RunInv(run, value, i);
  }

  /** A state with three threads. */
  function Three(value: int, waiters: int, mutex: Option<nat>, p0: PC, p1: PC, p2: PC): State {
    State(value, waiters, mutex, map[0 := p0, 1 := p1, 2 := p2])
  }

  lemma Steps(s: State, a: Action, s': State)
    requires Enabled(s, a) && s' == Apply(s, a)
    ensures Next(s, s')
  {}

  /** Thread 0 calls down on an empty semaphore and falls asleep. */
  lemma OneSleeps() returns (run: seq<State>)
    ensures |run| == 3 && run[0] == Three(0, 0, None, Outside, Outside, Outside)
    ensures run[2] == Three(0, 1, None, Asleep, Outside, Outside)
    ensures Connected(run) && Bounded(run, 2)
  {
    run := [
      Three(0, 0, None, Outside, Outside, Outside),
      Three(0, 0, Some(0), DownTest, Outside, Outside),
      Three(0, 1, None, Asleep, Outside, Outside)];
    Steps(run[0], CallDown(0), run[1]);
    Steps(run[1], Run(0), run[2]);
  }

  /** So does thread 1. */
  lemma AnotherSleeps() returns (run: seq<State>)
    ensures |run| == 3 && run[0] == Three(0, 1, None, Asleep, Outside, Outside)
    ensures run[2] == Three(0, 2, None, Asleep, Asleep, Outside)
    ensures Connected(run) && Bounded(run, 2)
  {
    run := [
      Three(0, 1, None, Asleep, Outside, Outside),
      Three(0, 1, Some(1), Asleep, DownTest, Outside),
      Three(0, 2, None, Asleep, Asleep, Outside)];
    Steps(run[0], CallDown(1), run[1]);
    Steps(run[1], Run(1), run[2]);
  }

  /** Thread 2 calls up. */
  lemma FirstUp() returns (run: seq<State>)
    ensures |run| == 3 && run[0] == Three(0, 2, None, Asleep, Asleep, Outside)
    ensures run[2] == Three(1, 2, Some(2), Asleep, Asleep, UpSignal(true))
    ensures Connected(run) && Bounded(run, 2)
  {
    run := [
      Three(0, 2, None, Asleep, Asleep, Outside),
      Three(0, 2, Some(2), Asleep, Asleep, UpTest),
      Three(1, 2, Some(2), Asleep, Asleep, UpSignal(true))];
    Steps(run[0], CallUp(2), run[1]);
    Steps(run[1], Run(2), run[2]);
  }

  /** It signals thread 0 and leaves. */
  lemma FirstSignal() returns (run: seq<State>)
    ensures |run| == 3 && run[0] == Three(1, 2, Some(2), Asleep, Asleep, UpSignal(true))
    ensures run[2] == Three(1, 2, None, Woken, Asleep, Outside)
    ensures Connected(run) && Bounded(run, 2)
  {
    run := [
      Three(1, 2, Some(2), Asleep, Asleep, UpSignal(true)),
      Three(1, 2, Some(2), Woken, Asleep, UpExit),
      Three(1, 2, None, Woken, Asleep, Outside)];
    Steps(run[0], Signal(2, Some(0)), run[1]);
    Steps(run[1], Run(2), run[2]);
  }

  /** Thread 2 calls up again; the value is not zero, so it will signal nobody. */
  lemma SecondUp() returns (run: seq<State>)
    ensures |run| == 3 && run[0] == Three(1, 2, None, Woken, Asleep, Outside)
    ensures run[2] == Three(2, 2, Some(2), Woken, Asleep, UpSignal(false))
    ensures Connected(run) && Bounded(run, 2)
  {
    run := [
      Three(1, 2, None, Woken, Asleep, Outside),
      Three(1, 2, Some(2), Woken, Asleep, UpTest),
      Three(2, 2, Some(2), Woken, Asleep, UpSignal(false))];
    Steps(run[0], CallUp(2), run[1]);
    Steps(run[1], Run(2), run[2]);
  }

  /** It leaves without a signal. */
  lemma SecondLeaves() returns (run: seq<State>)
    ensures |run| == 3 && run[0] == Three(2, 2, Some(2), Woken, Asleep, UpSignal(false))
    ensures run[2] == Three(2, 2, None, Woken, Asleep, Outside)
    ensures Connected(run) && Bounded(run, 2)
  {
    run := [
      Three(2, 2, Some(2), Woken, Asleep, UpSignal(false)),
      Three(2, 2, Some(2), Woken, Asleep, UpExit),
      Three(2, 2, None, Woken, Asleep, Outside)];
    Steps(run[0], Signal(2, None), run[1]);
    Steps(run[1], Run(2), run[2]);
  }

  /** Thread 0 resumes and takes one of the two units. */
  lemma OneResumes() returns (run: seq<State>)
    ensures |run| == 3 && run[0] == Three(2, 2, None, Woken, Asleep, Outside)
    ensures run[2] == Three(1, 1, Some(0), DownExit, Asleep, Outside)
    ensures Connected(run) && Bounded(run, 2)
  {
    run := [
      Three(2, 2, None, Woken, Asleep, Outside),
      Three(2, 1, Some(0), DownTest, Asleep, Outside),
      Three(1, 1, Some(0), DownExit, Asleep, Outside)];
    Steps(run[0], Run(0), run[1]);
    Steps(run[1], Run(0), run[2]);
  }

  /** It returns with the unit. */
  lemma OneHolds() returns (run: seq<State>)
    ensures |run| == 2 && run[0] == Three(1, 1, Some(0), DownExit, Asleep, Outside)
    ensures run[1] == Three(1, 1, None, Holding, Asleep, Outside)
    ensures Connected(run) && Bounded(run, 2)
  {
    run := [
      Three(1, 1, Some(0), DownExit, Asleep, Outside),
      Three(1, 1, None, Holding, Asleep, Outside)];
    Steps(run[0], Run(0), run[1]);
  }

  /** The limit to one unit is needed: two ups in a row signal only once, so after the woken thread
      took its unit the other sleeps beside an available one. */
  lemma SecondUnitLosesWakeup() returns (run: seq<State>)
    ensures IsRun(run, 0) && Bounded(run, 2)
    ensures !NoLostWakeup(run[|run| - 1])
  {
    run := OneSleeps();
    var a := AnotherSleeps();
    var b := FirstUp();
    var b' := FirstSignal();
    var c := SecondUp();
    var c' := SecondLeaves();
    var d := OneResumes();
    var d' := OneHolds();
    run := Join(run, a);
    run := Join(run, b);
    run := Join(run, b');
    run := Join(run, c);
    run := Join(run, c');
    run := Join(run, d);
    run := Join(run, d');
    assert run[15] == d'[1] && run[15].pc[1] == Asleep;
  }

  lemma Join(a: seq<State>, b: seq<State>) returns (run: seq<State>)
    requires a != [] && b != [] && Connected(a) && Connected(b) && a[|a| - 1] == b[0]
    ensures run == a + b[1..] && Connected(run)
  {
    run := a + b[1..];
    forall i | 0 <= i < |run| - 1 ensures Next(run[i], run[i+1]) {
      if i >= |a| - 1 { assert Next(b[i - |a| + 1], b[i - |a| + 1 + 1]); }
    }
  }

  /** The exact condition: wakeups are safe for every use that keeps the value within `bound`
      precisely when that bound is at most one. */
  lemma NoLostWakeupExactlyForLocks(bound: nat)
    ensures (forall run, value, i :: IsRun(run, value) && Bounded(run, bound) && 0 <= i < |run| ==> NoLostWakeup(run[i]))
       <==> bound <= 1
  {
    if bound <= 1 {
      forall run, value, i | IsRun(run, value) && Bounded(run, bound) && 0 <= i < |run|
        ensures NoLostWakeup(run[i])
      {
        NoWakeupIsLost(run, value, i);
      }
    } else {
      var run := SecondUnitLosesWakeup();
      assert IsRun(run, 0) && Bounded(run, bound) && !NoLostWakeup(run[|run| - 1]);
    }
  }

  // ----- the semaphore as a lock -----

  /** Threads that have taken a unit and not yet given it back. */
  ghost function WithUnit(): PC -> bool {
    (p: PC) => p.DownExit? || p.Holding? || p.UpTest?
  }

  /** Lock discipline: only a thread that holds the semaphore calls up. */
  ghost predicate LockNext(s: State, s': State) {
    exists a :: Enabled(s, a) && (a.CallUp? ==> At(s, a.t).Holding?) && s' == Apply(s, a)
  }

  ghost predicate IsLockRun(run: seq<State>) {
    && run != []
    && Init(run[0], 1)
    && forall i :: 0 <= i < |run| - 1 ==> LockNext(run[i], run[i+1])
  }

  /** Units are conserved. */
  ghost predicate UnitInv(s: State) {
    s.value + Count(s.pc, WithUnit()) == 1
  }

  /** Each step of the mutex code is an atomic down, an atomic up, or invisible to users. */
  lemma RefinesAtomic(s: State, a: Action)
    requires Inv(s) && Enabled(s, a) && (a.CallUp? ==> At(s, a.t).Holding?)
    ensures var s' := Apply(s, a);
      var held, held' := Those(s.pc, WithUnit()), Those(s'.pc, WithUnit());
      || (s'.value == s.value && held' == held)
      || (s.value > 0 && s'.value == s.value - 1 && a.t !in held && held' == held + {a.t})
      || (s'.value == s.value + 1 && a.t in held && held' == held - {a.t})
  {
  }

  lemma UnitsKept(s: State, a: Action)
    requires Inv(s) && UnitInv(s) && Enabled(s, a) && (a.CallUp? ==> At(s, a.t).Holding?)
    ensures UnitInv(Apply(s, a))
  {
    RefinesAtomic(s, a);
    Split(Those(s.pc, WithUnit()), a.t);
    Split(Those(Apply(s, a).pc, WithUnit()), a.t);
  }

  lemma {:induction false} LockRunInv(run: seq<State>, i: nat)
    requires IsLockRun(run) && i < |run|
    ensures Inv(run[i]) && UnitInv(run[i])
  {
    if i == 0 {
      CountZero(run[0].pc, Waiting());
      CountZero(run[0].pc, WithUnit());
    } else {
      LockRunInv(run, i - 1);
      assert LockNext(run[i-1], run[i-1+1]);
      var a :| Enabled(run[i-1], a) && (a.CallUp? ==> At(run[i-1], a.t).Holding?) && run[i] == Apply(run[i-1], a);
      InvKept(run[i-1], a);
      UnitsKept(run[i-1], a);
    }
  }

  /** Under lock discipline at most one thread holds the semaphore, and no wakeup is lost. */
  lemma LockRunIsSafe(run: seq<State>, i: nat, t: nat, u: nat)
    requires IsLockRun(run) && i < |run|
    ensures At(run[i], t).Holding? && At(run[i], u).Holding? ==> t == u
    ensures NoLostWakeup(run[i])
  {
    LockRunInv(run, i);
    if At(run[i], t).Holding? && At(run[i], u).Holding? {
      CountPositive(run[i].pc, t, WithUnit());
      CountUnique(run[i].pc, t, u, WithUnit());
    }
    forall j | 0 <= j < |run| ensures run[j].value <= 1 { LockRunInv(run, j); }
    forall j | 0 <= j < |run| - 1 ensures Next(run[j], run[j+1]) { assert LockNext(run[j], run[j+1]); }
    NoWakeupIsLost(run, 1, i);
  }

  // ----- the atomic semaphore -----

  /** A semaphore whose down and up are single steps: its value and who has taken a unit. */
  datatype Atomic = Atomic(value: int, holders: set<nat>)

  ghost predicate AtomicNext(a: Atomic, b: Atomic) {
    || (exists t :: a.value > 0 && t !in a.holders && b == Atomic(a.value - 1, a.holders + {t}))
    || (exists t :: t in a.holders && b == Atomic(a.value + 1, a.holders - {t}))
  }

  ghost predicate IsAtomicRun(trace: seq<Atomic>) {
    && trace != []
    && trace[0] == Atomic(1, {})
    && forall i :: 0 <= i < |trace| - 1 ==> AtomicNext(trace[i], trace[i+1])
  }

  ghost function Abstract(s: State): Atomic {
    Atomic(s.value, Those(s.pc, WithUnit()))
  }

  /** A sequence of atomic states without immediate repetitions. */
  ghost function Shown(states: seq<Atomic>): (trace: seq<Atomic>)
    requires states != []
    ensures trace != [] && trace[|trace| - 1] == states[|states| - 1]
  {
    var n := |states| - 1;
    if n == 0 then states
    else if states[n] == states[n-1] then Shown(states[..n])
    else Shown(states[..n]) + [states[n]]
  }

  /** The atomic states a run passes through, invisible steps dropped. */
  ghost function Visible(run: seq<State>): (trace: seq<Atomic>)
    requires run != []
    ensures trace != [] && trace[|trace| - 1] == Abstract(run[|run| - 1])
  {
    Shown(seq(|run|, i requires 0 <= i < |run| => Abstract(run[i])))
  }

  lemma ShownAppend(states: seq<Atomic>, a: Atomic)
    requires states != []
    ensures Shown(states + [a]) == if a == states[|states| - 1] then Shown(states) else Shown(states) + [a]
  {
    assert (states + [a])[..|states|] == states;
  }

  lemma VisibleAppend(run: seq<State>, s: State)
    requires run != []
    ensures Visible(run + [s])
         == if Abstract(s) == Abstract(run[|run| - 1]) then Visible(run) else Visible(run) + [Abstract(s)]
  {
    var states := seq(|run|, i requires 0 <= i < |run| => Abstract(run[i]));
    var longer := run + [s];
    assert seq(|longer|, i requires 0 <= i < |longer| => Abstract(longer[i])) == states + [Abstract(s)];
    ShownAppend(states, Abstract(s));
  }

  lemma AtomicStep(s: State, s': State)
    requires Inv(s) && LockNext(s, s')
    ensures Abstract(s') == Abstract(s) || AtomicNext(Abstract(s), Abstract(s'))
  {
    var a :| Enabled(s, a) && (a.CallUp? ==> At(s, a.t).Holding?) && s' == Apply(s, a);
    RefinesAtomic(s, a);
  }

  lemma VisibleStep(trace: seq<Atomic>, a: Atomic, b: Atomic)
    requires IsAtomicRun(trace) && trace[|trace| - 1] == a && AtomicNext(a, b)
    ensures IsAtomicRun(trace + [b])
  {}

  /** Trace refinement: dropping invisible steps, every run of the mutex code used as a lock is a run of the
      atomic semaphore. */
  lemma {:induction false} LockRunRefinesAtomic(run: seq<State>)
    requires IsLockRun(run)
    ensures IsAtomicRun(Visible(run))
  {
    var n := |run| - 1;
    if n == 0 {
      assert Those(run[0].pc, WithUnit()) == {};
    } else {
      LockRunRefinesAtomic(run[..n]);
      LockRunInv(run, n - 1);
      assert LockNext(run[n-1], run[n-1+1]);
      AtomicStep(run[n-1], run[n]);
      assert run == run[..n] + [run[n]];
      VisibleAppend(run[..n], run[n]);
      if Abstract(run[n]) != Abstract(run[n-1]) {
        VisibleStep(Visible(run[..n]), Abstract(run[n-1]), Abstract(run[n]));
      }
    }
  }

  // ----- what a call does -----

  /** A trylock is refused, and a down goes to sleep, only in a state without a unit. */
  lemma RefusedOnlyAtZero(run: seq<State>, value: nat, i: nat, t: nat)
    requires IsRun(run, value) && i + 1 < |run|
    requires At(run[i], t) != At(run[i+1], t) && (At(run[i+1], t).TryExit? || At(run[i+1], t).Asleep?)
    ensures run[i].value == 0
  {
    assert Next(run[i], run[i+1]);
  }

  /** Used as a lock: a call is refused or goes to sleep only while another thread has the lock. */
  lemma RefusedOnlyWhileTaken(run: seq<State>, i: nat, t: nat) returns (u: nat)
    requires IsLockRun(run) && i + 1 < |run|
    requires At(run[i], t) != At(run[i+1], t) && (At(run[i+1], t).TryExit? || At(run[i+1], t).Asleep?)
    ensures u != t && WithUnit()(At(run[i], u))
  {
    forall j | 0 <= j < |run| - 1 ensures Next(run[j], run[j+1]) { assert LockNext(run[j], run[j+1]); }
    RefusedOnlyAtZero(run, 1, i, t);
    LockRunInv(run, i);
    u :| u in Those(run[i].pc, WithUnit());
    assert LockNext(run[i], run[i+1]);
  }

  /** The thread inside the mutex can always go on. */
  lemma MutexHolderMoves(s: State) returns (a: Action)
    requires Inv(s) && s.mutex.Some?
    ensures a.t == s.mutex.value && Enabled(s, a)
  {
    var t := s.mutex.value;
    if At(s, t).UpSignal? {
      if At(s, t).doWake && SomeoneAsleep(s) {
        var w :| w in s.pc && s.pc[w] == Asleep;
        a := Signal(t, Some(w));
      } else {
        a := Signal(t, None);
      }
    } else {
      a := Run(t);
    }
  }

  /** How many steps of the thread inside the mutex are left, at most, until it lets go. */
  function Left(p: PC): nat {
    match p
    case UpTest => 3
    case UpSignal(_) => 2
    case DownTest => 2
    case TryTest => 2
    case DownExit => 1
    case TryExit => 1
    case UpExit => 1
    case _ => 0
  }

  /** Whoever is inside the mutex lets go of it after at most three steps of its own. */
  lemma MutexIsReleased(s: State, a: Action)
    requires Inv(s) && s.mutex == Some(a.t) && Enabled(s, a)
    ensures var s' := Apply(s, a);
      s'.mutex.None? || (s'.mutex == s.mutex && Left(At(s', a.t)) < Left(At(s, a.t)))
  {}

  /** A refused trylock returns and leaves the semaphore as it was. */
  lemma RefusedTrylockReturns(s: State, t: nat) returns (run: seq<State>)
    requires s.mutex.None? && s.value == 0 && At(s, t).Outside?
    ensures |run| == 4 && run[0] == s && Connected(run)
    ensures run[3] == s.(pc := s.pc[t := Outside])
  {
    var s1 := Apply(s, CallTry(t));
    var s2 := Apply(s1, Run(t));
    var s3 := Apply(s2, Run(t));
    Steps(s, CallTry(t), s1);
    Steps(s1, Run(t), s2);
    Steps(s2, Run(t), s3);
    run := [s, s1, s2, s3];
    assert s3.pc == s.pc[t := Outside];
  }

  /** A woken thread that finds the mutex free and a unit takes it. */
  lemma WokenTakesUnit(s: State, t: nat) returns (run: seq<State>)
    requires s.mutex.None? && s.value >= 1 && At(s, t).Woken?
    ensures |run| == 4 && run[0] == s && Connected(run)
    ensures At(run[3], t).Holding? && run[3].value == s.value - 1 && run[3].waiters == s.waiters - 1
    ensures run[3].mutex.None? && forall u :: u != t ==> At(run[3], u) == At(s, u)
  {
    var s1 := Apply(s, Run(t));
    var s2 := Apply(s1, Run(t));
    var s3 := Apply(s2, Run(t));
    Steps(s, Run(t), s1);
    Steps(s1, Run(t), s2);
    Steps(s2, Run(t), s3);
    run := [s, s1, s2, s3];
  }

  // ----- every atomic run is a run of the code -----

  /** Nobody is inside a call. */
  ghost predicate Quiet(s: State) {
    s.mutex.None? && s.waiters == 0 && forall t :: t in s.pc ==> s.pc[t].Outside? || s.pc[t].Holding?
  }

  /** Units are taken by trylock only, or by down only. */
  ghost predicate Uses(s: State, trylock: bool) {
    forall t :: t in s.pc ==> if trylock then !s.pc[t].DownTest? else !s.pc[t].TryTest?
  }

  /** One thread at p, the others as in the quiet state s. */
  ghost predicate OneInside(s: State, s': State, t: nat, p: PC) {
    s'.pc == s.pc[t := p]
  }

  lemma OneInsideAbstract(s: State, s': State, t: nat, p: PC, trylock: bool)
    requires Quiet(s) && OneInside(s, s', t, p) && (if trylock then !p.DownTest? else !p.TryTest?)
    ensures Abstract(s').holders == Abstract(s).holders - {t} + (if WithUnit()(p) then {t} else {})
    ensures Uses(s', trylock)
  {}

  lemma LockStep(s: State, a: Action, s': State)
    requires Enabled(s, a) && s' == Apply(s, a) && (a.CallUp? ==> At(s, a.t).Holding?)
    ensures LockNext(s, s')
  {}

  lemma DownSteps(s: State, t: nat, trylock: bool) returns (s1: State, s2: State, s3: State)
    requires s.mutex.None? && s.value > 0 && At(s, t).Outside?
    ensures LockNext(s, s1) && LockNext(s1, s2) && LockNext(s2, s3)
    ensures OneInside(s, s1, t, if trylock then TryTest else DownTest) && s1.value == s.value
    ensures OneInside(s, s2, t, DownExit) && s2.value == s.value - 1
    ensures s3 == State(s.value - 1, s.waiters, None, s.pc[t := Holding])
  {
    var call := if trylock then CallTry(t) else CallDown(t);
    s1 := Apply(s, call);
    s2 := Apply(s1, Run(t));
    s3 := Apply(s2, Run(t));
    LockStep(s, call, s1);
    LockStep(s1, Run(t), s2);
    LockStep(s2, Run(t), s3);
  }

  lemma UpSteps(s: State, t: nat) returns (s1: State, s2: State, s3: State, s4: State)
    requires s.mutex.None? && s.waiters == 0 && At(s, t).Holding?
    ensures LockNext(s, s1) && LockNext(s1, s2) && LockNext(s2, s3) && LockNext(s3, s4)
    ensures OneInside(s, s1, t, UpTest) && s1.value == s.value
    ensures OneInside(s, s2, t, UpSignal(false)) && s2.value == s.value + 1
    ensures OneInside(s, s3, t, UpExit) && s3.value == s.value + 1
    ensures s4 == State(s.value + 1, s.waiters, None, s.pc[t := Outside])
  {
    s1 := Apply(s, CallUp(t));
    s2 := Apply(s1, Run(t));
    s3 := Apply(s2, Signal(t, None));
    s4 := Apply(s3, Run(t));
    LockStep(s, CallUp(t), s1);
    LockStep(s1, Run(t), s2);
    LockStep(s2, Signal(t, None), s3);
    LockStep(s3, Run(t), s4);
  }

  /** A free unit is taken by three steps of a trylock or of a down, of which the second is the visible one. */
  lemma DownRealized(s: State, t: nat, trylock: bool) returns (s1: State, s2: State, s3: State)
    requires Quiet(s) && s.value > 0 && At(s, t).Outside?
    ensures LockNext(s, s1) && LockNext(s1, s2) && LockNext(s2, s3) && Quiet(s3)
    ensures Uses(s1, trylock) && Uses(s2, trylock) && Uses(s3, trylock)
    ensures Abstract(s1) == Abstract(s)
    ensures Abstract(s2) == Abstract(s3) == Atomic(s.value - 1, Abstract(s).holders + {t})
  {
    s1, s2, s3 := DownSteps(s, t, trylock);
    OneInsideAbstract(s, s1, t, if trylock then TryTest else DownTest, trylock);
    OneInsideAbstract(s, s2, t, DownExit, trylock);
    OneInsideAbstract(s, s3, t, Holding, trylock);
  }

  /** A unit is given back by four steps of an up, of which the second is the visible one. */
  lemma UpRealized(s: State, t: nat, trylock: bool) returns (s1: State, s2: State, s3: State, s4: State)
    requires Quiet(s) && At(s, t).Holding?
    ensures LockNext(s, s1) && LockNext(s1, s2) && LockNext(s2, s3) && LockNext(s3, s4) && Quiet(s4)
    ensures Uses(s1, trylock) && Uses(s2, trylock) && Uses(s3, trylock) && Uses(s4, trylock)
    ensures Abstract(s1) == Abstract(s)
    ensures Abstract(s2) == Abstract(s3) == Abstract(s4) == Atomic(s.value + 1, Abstract(s).holders - {t})
  {
    s1, s2, s3, s4 := UpSteps(s, t);
    OneInsideAbstract(s, s1, t, UpTest, trylock);
    OneInsideAbstract(s, s2, t, UpSignal(false), trylock);
    OneInsideAbstract(s, s3, t, UpExit, trylock);
    OneInsideAbstract(s, s4, t, Outside, trylock);
  }

  ghost predicate Realizes(run: seq<State>, trace: seq<Atomic>, trylock: bool) {
    && IsLockRun(run) && Visible(run) == trace
    && forall i :: 0 <= i < |run| ==> Uses(run[i], trylock)
  }

  lemma LockRunAppend(run: seq<State>, s: State)
    requires IsLockRun(run) && LockNext(run[|run| - 1], s)
    ensures IsLockRun(run + [s])
  {
    var longer := run + [s];
    forall i | 0 <= i < |longer| - 1 ensures LockNext(longer[i], longer[i+1]) {
      if i < |run| - 1 { assert LockNext(run[i], run[i+1]); }
    }
  }

  /** One more step of the code. */
  lemma Extend(run: seq<State>, trace: seq<Atomic>, trylock: bool, s: State)
    requires Realizes(run, trace, trylock) && LockNext(run[|run| - 1], s) && Uses(s, trylock)
    ensures var a := Abstract(s);
      Realizes(run + [s], if a == Abstract(run[|run| - 1]) then trace else trace + [a], trylock)
  {
    LockRunAppend(run, s);
    VisibleAppend(run, s);
  }

  /** The converse of LockRunRefinesAtomic: every run of the atomic semaphore is what some run of the code shows,
      both with every unit taken by a trylock and with every unit taken by a down. */
  lemma {:induction false} AtomicRunIsRealized(trace: seq<Atomic>, trylock: bool) returns (run: seq<State>)
    requires IsAtomicRun(trace)
    ensures Realizes(run, trace, trylock)
    ensures Quiet(run[|run| - 1]) && Abstract(run[|run| - 1]) == trace[|trace| - 1]
  {
    var n := |trace| - 1;
    if n == 0 {
      run := [State(1, 0, None, map[])];
      assert Abstract(run[0]) == Atomic(1, {});
      assert trace == [trace[0]];
    } else {
      run := AtomicRunIsRealized(trace[..n], trylock);
      assert AtomicNext(trace[n-1], trace[n-1+1]);
      assert trace == trace[..n] + [trace[n]];
      run := Realized(run, trace[..n], trace[n], trylock);
    }
  }

  lemma Realized(run: seq<State>, trace: seq<Atomic>, b: Atomic, trylock: bool) returns (longer: seq<State>)
    requires Realizes(run, trace, trylock) && Quiet(run[|run| - 1])
    requires AtomicNext(Abstract(run[|run| - 1]), b)
    ensures Realizes(longer, trace + [b], trylock)
    ensures Quiet(longer[|longer| - 1]) && Abstract(longer[|longer| - 1]) == b
  {
    var s := run[|run| - 1];
    var a := Abstract(s);
    if t :| a.value > 0 && t !in a.holders && b == Atomic(a.value - 1, a.holders + {t}) {
      var s1, s2, s3 := DownRealized(s, t, trylock);
      longer := ExtendByThree(run, trace, trylock, s1, s2, s3);
    } else {
      var t :| t in a.holders && b == Atomic(a.value + 1, a.holders - {t});
      var s1, s2, s3, s4 := UpRealized(s, t, trylock);
      longer := ExtendByThree(run, trace, trylock, s1, s2, s3);
      Extend(longer, trace + [b], trylock, s4);
      longer := longer + [s4];
    }
  }

  lemma ExtendByThree(run: seq<State>, trace: seq<Atomic>, trylock: bool, s1: State, s2: State, s3: State)
    returns (longer: seq<State>)
    requires Realizes(run, trace, trylock) && LockNext(run[|run| - 1], s1) && LockNext(s1, s2) && LockNext(s2, s3)
    requires Uses(s1, trylock) && Uses(s2, trylock) && Uses(s3, trylock)
    requires Abstract(run[|run| - 1]) == Abstract(s1) != Abstract(s2) == Abstract(s3)
    ensures Realizes(longer, trace + [Abstract(s3)], trylock) && longer[|longer| - 1] == s3
  {
    Extend(run, trace, trylock, s1);
    Extend(run + [s1], trace, trylock, s2);
    Extend(run + [s1] + [s2], trace + [Abstract(s2)], trylock, s3);
    longer := run + [s1] + [s2] + [s3];
  }
}
