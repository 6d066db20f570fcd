/** The queue depth search for a latency target (fio4emu/io_u.c): after each window the depth is raised or
    lowered; when it stays the same twice in a row the run is done. */
module LatencyTarget {
  import opened Bits

  datatype Search = Search(qd: nat, low: nat, high: nat, stable: nat, endRun: bool, done: bool)

  /** lat_target_init with a latency target set; latency_stable_count keeps its value. */
  function Started(s: Search, iodepth: nat): Search {
    s.(qd := 1, low := 1, high := iodepth, endRun := false)
  }

  /** __lat_target_failed */
  function Failed(s: Search): Search
    requires s.qd == s.low ==> s.low > 0
  {
    if s.qd == 1 then s
    else
      var low := if s.qd == s.low then s.low - 1 else s.low;
      s.(high := s.qd, low := low, qd := (s.qd + low) / 2, stable := 0)
  }

  /** The depth tried after a window in time. */
  function Raised(s: Search, high: nat, iodepth: nat): nat {
    var q := if high != iodepth then (s.qd + high) / 2 else s.qd * 2;
    if q > iodepth then iodepth else q
  }

  /** The upper bound after a window in time: the third one in a row just below it moves it up. */
  function Lifted(s: Search): nat {
    if s.qd + 1 == s.high && s.stable >= 2 then s.high + 1 else s.high
  }

  /** Windows in a row just below the upper bound. */
  function Steadied(s: Search): nat {
    if s.qd + 1 != s.high then s.stable else if s.stable >= 2 then 0 else s.stable + 1
  }

  /** The depth did not move: the first time this starts the final run, the second time it ends it. */
  predicate Settles(s: Search, iodepth: nat, latencyRun: bool) {
    !latencyRun && Raised(s, Lifted(s), iodepth) == s.qd
  }

  /** lat_target_success */
  function Succeeded(s: Search, iodepth: nat, latencyRun: bool): Search {
    var settles := Settles(s, iodepth, latencyRun);
    Search(Raised(s, Lifted(s), iodepth), s.qd, Lifted(s), Steadied(s),
           s.endRun || settles, s.done || (settles && s.endRun))
  }

  /** The depth lies between the bounds, below the upper one unless that is the configured depth. */
  ghost predicate Inv(s: Search, iodepth: nat) {
    && 1 <= s.low <= s.qd <= s.high && s.qd <= iodepth
    && (s.qd < s.high || s.high == iodepth)
  }

  lemma SuccessInBounds(s: Search, iodepth: nat, latencyRun: bool)
    requires Inv(s, iodepth)
    ensures Inv(Succeeded(s, iodepth, latencyRun), iodepth)
  {}

  // ----- any device -----

  ghost predicate Next(s: Search, s': Search, iodepth: nat, latencyRun: bool) {
    || s' == Succeeded(s, iodepth, latencyRun)
    || ((s.qd == s.low ==> s.low > 0) && s' == Failed(s))
    || (!s.endRun && s' == Started(s, iodepth))          // lat_target_reset
  }

  ghost predicate IsRun(run: seq<Search>, iodepth: nat, latencyRun: bool) {
    && run != [] && iodepth >= 1
    && run[0] == Started(run[0], iodepth) && !run[0].done
    && forall n :: 0 <= n < |run| - 1 ==> Next(run[n], run[n+1], iodepth, latencyRun)
  }

  /** Whatever the device does, the depth stays between the bounds and within the configured depth. */
  lemma {:induction false} DepthInBounds(run: seq<Search>, iodepth: nat, latencyRun: bool, n: nat)
    requires IsRun(run, iodepth, latencyRun) && n < |run|
    ensures Inv(run[n], iodepth)
  {
    if n > 0 {
      DepthInBounds(run, iodepth, latencyRun, n - 1);
      assert Next(run[n-1], run[n-1+1], iodepth, latencyRun);
    }
  }

  /** With latency_run set the search goes on for ever. */
  lemma {:induction false} LatencyRunNeverEnds(run: seq<Search>, iodepth: nat, n: nat)
    requires IsRun(run, iodepth, true) && n < |run|
    ensures !run[n].endRun && !run[n].done
  {
    if n > 0 {
      LatencyRunNeverEnds(run, iodepth, n - 1);
      assert Next(run[n-1], run[n-1+1], iodepth, true);
    }
  }

  // ----- a device with a threshold -----

  /** The window at depth qd is in time exactly when qd <= limit. */
  ghost predicate DeviceNext(s: Search, s': Search, iodepth: nat, latencyRun: bool, limit: nat) {
    || (s.qd <= limit && s' == Succeeded(s, iodepth, latencyRun))
    || (s.qd > limit && (s.qd == s.low ==> s.low > 0) && s' == Failed(s))
    || (!s.endRun && s' == Started(s, iodepth))
  }

  ghost predicate IsDeviceRun(run: seq<Search>, iodepth: nat, latencyRun: bool, limit: nat) {
    && IsRun(run, iodepth, latencyRun) && 1 <= limit <= iodepth
    && forall n :: 0 <= n < |run| - 1 ==> DeviceNext(run[n], run[n+1], iodepth, latencyRun, limit)
  }

  /** The lower bound is known to pass; the upper one is known to fail unless it is still the initial one. */
  ghost predicate Bracket(s: Search, iodepth: nat, limit: nat) {
    s.low <= limit && (s.high > limit || s.high == iodepth)
  }

  lemma {:induction false} BracketKept(run: seq<Search>, iodepth: nat, latencyRun: bool, limit: nat, n: nat)
    requires IsDeviceRun(run, iodepth, latencyRun, limit) && n < |run|
    ensures Inv(run[n], iodepth) && Bracket(run[n], iodepth, limit)
  {
    DepthInBounds(run, iodepth, latencyRun, n);
    if n > 0 {
      BracketKept(run, iodepth, latencyRun, limit, n - 1);
      assert DeviceNext(run[n-1], run[n-1+1], iodepth, latencyRun, limit);
    }
  }

  /** A depth that does not move is the device's limit. */
  lemma SettlesAtTheLimit(run: seq<Search>, iodepth: nat, latencyRun: bool, limit: nat, n: nat)
    requires IsDeviceRun(run, iodepth, latencyRun, limit) && n + 1 < |run|
    requires run[n].qd <= limit && run[n+1] == Succeeded(run[n], iodepth, latencyRun)
    requires Settles(run[n], iodepth, latencyRun)
    ensures run[n].qd == run[n+1].qd == limit
    ensures limit != iodepth - 1
  {
    BracketKept(run, iodepth, latencyRun, limit, n);
  }

  /** Every time the run is marked done, the depth in force is the device's limit, and a final run at that depth
      has come before. */
  lemma DoneAtTheLimit(run: seq<Search>, iodepth: nat, latencyRun: bool, limit: nat, n: nat)
    requires IsDeviceRun(run, iodepth, latencyRun, limit) && n + 1 < |run|
    requires !run[n].done && run[n+1].done
    ensures run[n].qd == run[n+1].qd == limit && run[n].endRun
  {
    assert DeviceNext(run[n], run[n+1], iodepth, latencyRun, limit);
    SettlesAtTheLimit(run, iodepth, latencyRun, limit, n);
  }

  /** Consequence: a device whose limit is one below the configured depth is never marked done. */
  lemma {:induction false} OneBelowNeverEnds(run: seq<Search>, iodepth: nat, latencyRun: bool, n: nat)
    requires iodepth >= 2 && IsDeviceRun(run, iodepth, latencyRun, iodepth - 1) && n < |run|
    ensures !run[n].endRun && !run[n].done
  {
    if n > 0 {
      OneBelowNeverEnds(run, iodepth, latencyRun, n - 1);
      var s, s' := run[n-1], run[n];
      assert DeviceNext(run[n-1], run[n-1+1], iodepth, latencyRun, iodepth - 1);
      if s' == Succeeded(s, iodepth, latencyRun) && s.qd <= iodepth - 1 && Settles(s, iodepth, latencyRun) {
        SettlesAtTheLimit(run, iodepth, latencyRun, iodepth - 1, n - 1);
        assert false;
      }
    }
  }

  // ----- when the search ends -----

  /** One window against the device. */
  function Device(s: Search, iodepth: nat, limit: nat): Search
    requires s.qd == s.low ==> s.low > 0
  {
    if s.qd <= limit then Succeeded(s, iodepth, false) else Failed(s)
  }

  /** The windows in order, starting from s. */
  ghost predicate IsWindowRun(run: seq<Search>, s: Search, iodepth: nat, limit: nat) {
    && run != [] && run[0] == s
    && forall n :: 0 <= n < |run| - 1 ==> run[n].low > 0 && run[n+1] == Device(run[n], iodepth, limit)
  }

  /** The run is marked done after at most n windows. */
  ghost predicate EndsWithin(s: Search, iodepth: nat, limit: nat, n: nat) {
    exists run: seq<Search> ::
      IsWindowRun(run, s, iodepth, limit) && |run| <= n + 1 && run[|run| - 1].done
  }

  ghost predicate Ends(s: Search, iodepth: nat, limit: nat) {
    exists n :: EndsWithin(s, iodepth, limit, n)
  }

  /** One more window in front. */
  lemma EndsBefore(s: Search, iodepth: nat, limit: nat, n: nat)
    requires s.low > 0 && EndsWithin(Device(s, iodepth, limit), iodepth, limit, n)
    ensures EndsWithin(s, iodepth, limit, n + 1)
  {
    var run: seq<Search> :| IsWindowRun(run, Device(s, iodepth, limit), iodepth, limit)
      && |run| <= n + 1 && run[|run| - 1].done;
    var longer := [s] + run;
    forall m | 0 <= m < |longer| - 1 ensures longer[m].low > 0 && longer[m+1] == Device(longer[m], iodepth, limit) {
      if m > 0 { assert longer[m] == run[m-1] && longer[m+1] == run[m-1+1]; }
    }
    assert IsWindowRun(longer, s, iodepth, limit);
  }

  /** A longer time is enough too. */
  lemma EndsSooner(s: Search, iodepth: nat, limit: nat, n: nat, m: nat)
    requires EndsWithin(s, iodepth, limit, n) && n <= m
    ensures EndsWithin(s, iodepth, limit, m)
  {}

  /** A depth that passes and does not move ends the run in two windows. */
  lemma EndsWhenSettled(s: Search, iodepth: nat, limit: nat)
    requires 1 <= s.qd <= limit <= iodepth && s.low > 0
    requires s.qd == s.high == iodepth || (s.qd + 1 == s.high != iodepth && s.stable == 0)
    ensures EndsWithin(s, iodepth, limit, 2)
  {
    var s1 := Device(s, iodepth, limit);
    var s2 := Device(s1, iodepth, limit);
    assert s1.endRun && s1.qd == s.qd && s2.done;
    assert IsWindowRun([s2], s2, iodepth, limit);
    assert EndsWithin(s2, iodepth, limit, 0);
    EndsBefore(s1, iodepth, limit, 0);
    EndsBefore(s, iodepth, limit, 1);
  }

  /** The depth is halfway between a bound known to pass and a bound known to fail. */
  ghost predicate Bisecting(s: Search, iodepth: nat, limit: nat) {
    1 <= s.low <= limit < s.high < iodepth && s.qd == (s.low + s.high) / 2 && s.stable == 0
  }

  /** Bisection: every window halves the bracket. */
  lemma {:induction false} BisectionEnds(s: Search, iodepth: nat, limit: nat, k: nat)
    requires Bisecting(s, iodepth, limit) && s.high - s.low <= Pow2(k)
    ensures EndsWithin(s, iodepth, limit, k + 2)
    decreases k
  {
    if s.qd <= limit && s.qd + 1 == s.high {
      EndsWhenSettled(s, iodepth, limit);
      EndsSooner(s, iodepth, limit, 2, k + 2);
    } else {
      BisectionEnds(Device(s, iodepth, limit), iodepth, limit, k - 1);
      EndsBefore(s, iodepth, limit, k + 1);
    }
  }

  /** At the configured depth, which fails: the depth returns halfway to the lower bound, and either that fails
      and the bisection starts, or the distance to the lower bound has halved after two windows. */
  lemma {:induction false} ReturnEnds(s: Search, iodepth: nat, limit: nat, k: nat)
    requires s.qd == s.high == iodepth && 1 <= s.low <= limit && limit + 2 <= iodepth && iodepth - s.low <= Pow2(k)
    ensures EndsWithin(s, iodepth, limit, 2 * k + 2)
    decreases k
  {
    var s1 := Device(s, iodepth, limit);
    var s2 := Device(s1, iodepth, limit);
    if s1.qd <= limit {
      ReturnEnds(s2, iodepth, limit, k - 1);
    } else {
      BisectionEnds(s2, iodepth, limit, k - 1);
      EndsSooner(s2, iodepth, limit, k + 1, 2 * k);
    }
    EndsBefore(s1, iodepth, limit, 2 * k);
    EndsBefore(s, iodepth, limit, 2 * k + 1);
  }

  /** Doubling: the depth is a power of two, or has reached the configured one. */
  lemma {:induction false} DoublingEnds(s: Search, iodepth: nat, limit: nat, j: nat, k: nat)
    requires 1 <= s.low <= limit && limit + 2 <= iodepth <= Pow2(k) && s.high == iodepth
    requires j <= k && s.low <= s.qd == Min(Pow2(j), iodepth) && (s.qd > limit ==> s.low < s.qd)
    ensures EndsWithin(s, iodepth, limit, 3 * k - j + 3)
    decreases k - j
  {
    var s' := Device(s, iodepth, limit);
    if s.qd == iodepth {
      ReturnEnds(s, iodepth, limit, k);
      EndsSooner(s, iodepth, limit, 2 * k + 2, 3 * k - j + 3);
    } else if s.qd <= limit {
      Pow2Below(j, k, s.qd);
      DoublingEnds(s', iodepth, limit, j + 1, k);
      EndsBefore(s, iodepth, limit, 3 * k - j + 2);
    } else {
      BisectionEnds(s', iodepth, limit, k);
      EndsSooner(s', iodepth, limit, k + 2, 3 * k - j + 2);
      EndsBefore(s, iodepth, limit, 3 * k - j + 2);
    }
  }

  lemma Pow2Below(j: nat, k: nat, x: nat)
    requires j <= k && x == Pow2(j) < Pow2(k)
    ensures j < k
  {}

  /** A device that keeps up at every depth: double until the configured depth. */
  lemma {:induction false} ClimbEnds(s: Search, iodepth: nat, j: nat, k: nat)
    requires Inv(s, iodepth) && s.high == iodepth <= Pow2(k) && j <= k && s.qd >= Min(Pow2(j), iodepth)
    ensures EndsWithin(s, iodepth, iodepth, k - j + 2)
    decreases k - j
  {
    if s.qd == iodepth {
      TopEnds(s, iodepth);
      EndsSooner(s, iodepth, iodepth, 2, k - j + 2);
    } else {
      var s' := Device(s, iodepth, iodepth);
      assert j < k && Pow2(j + 1) == 2 * Pow2(j);
      if s'.high == iodepth {
        ClimbEnds(s', iodepth, j + 1, k);
      } else {
        TopEnds(s', iodepth);
        EndsSooner(s', iodepth, iodepth, 2, k - j + 1);
      }
      EndsBefore(s, iodepth, iodepth, k - j + 1);
    }
  }

  lemma TopEnds(s: Search, iodepth: nat)
    requires s.qd == iodepth >= 1 && s.low > 0
    requires s.high == iodepth || (s.high == iodepth + 1 && s.stable == 0)
    ensures EndsWithin(s, iodepth, iodepth, 2)
  {
    var s1 := Device(s, iodepth, iodepth);
    var s2 := Device(s1, iodepth, iodepth);
    assert s2.done;
    assert IsWindowRun([s2], s2, iodepth, iodepth);
    assert EndsWithin(s2, iodepth, iodepth, 0);
    EndsBefore(s1, iodepth, iodepth, 0);
    EndsBefore(s, iodepth, iodepth, 1);
  }

  /** The search is logarithmic: with a configured depth of at most 2^k it ends within 3k + 3 windows, from the
      first start and from every reset. */
  lemma LogarithmicSearch(s0: Search, iodepth: nat, limit: nat, k: nat)
    requires 1 <= limit <= iodepth <= Pow2(k) && limit != iodepth - 1
    ensures EndsWithin(Started(s0, iodepth), iodepth, limit, 3 * k + 3)
  {
    var s := Started(s0, iodepth);
    if limit == iodepth {
      ClimbEnds(s, iodepth, 0, k);
      EndsSooner(s, iodepth, limit, k + 2, 3 * k + 3);
    } else {
      DoublingEnds(s, iodepth, limit, 0, k);
    }
  }

  /** The exact condition: against a device that passes exactly up to `limit`, the search comes to an end
      if and only if the limit is not one below the configured depth. This holds from the first start and
      from every reset, whatever stable count it finds. */
  lemma EndsUnlessOneBelow(s0: Search, iodepth: nat, limit: nat)
    requires 1 <= limit <= iodepth && !s0.done
    ensures Ends(Started(s0, iodepth), iodepth, limit) <==> limit != iodepth - 1
  {
    var s := Started(s0, iodepth);
    if limit != iodepth - 1 {
      Pow2Exceeds(iodepth);
      LogarithmicSearch(s0, iodepth, limit, iodepth);
    } else {
      forall run: seq<Search> | IsWindowRun(run, s, iodepth, limit) ensures !run[|run| - 1].done {
        forall n | 0 <= n < |run| - 1
          ensures DeviceNext(run[n], run[n+1], iodepth, false, limit) && Next(run[n], run[n+1], iodepth, false)
        {
          assert run[n+1] == Device(run[n], iodepth, limit);
        }
        OneBelowNeverEnds(run, iodepth, false, |run| - 1);
      }
    }
  }

  lemma {:induction false} Pow2Exceeds(n: nat)
    ensures n < Pow2(n)
  {
    if n > 0 { Pow2Exceeds(n - 1); }
  }

  // ----- devices that change their mind -----

  /** The state after n windows in time. */
  function AfterPasses(s: Search, iodepth: nat, latencyRun: bool, n: nat): Search
    decreases n
  {
    if n == 0 then s else AfterPasses(Succeeded(s, iodepth, latencyRun), iodepth, latencyRun, n - 1)
  }

  /** Just below an upper bound that once failed: the third window in time in a row moves the bound up by one
      and the depth with it, or doubles the depth if the bound is the configured depth again. */
  lemma ThirdWindowLifts(s: Search, iodepth: nat, latencyRun: bool)
    requires Inv(s, iodepth) && s.qd + 1 == s.high < iodepth && s.stable == 0
    ensures var s' := AfterPasses(s, iodepth, latencyRun, 3);
      && s'.high == s.high + 1
      && s'.qd == if s.high + 1 < iodepth then s.qd + 1 else Min(2 * s.qd, iodepth)
    ensures AfterPasses(s, iodepth, latencyRun, 2).qd == s.qd
  {
    var s1 := Succeeded(s, iodepth, latencyRun);
    var s2 := Succeeded(s1, iodepth, latencyRun);
    var s3 := Succeeded(s2, iodepth, latencyRun);
    assert s2.stable == 2 && s2.qd == s.qd && s2.high == s.high;
    assert AfterPasses(s, iodepth, latencyRun, 2) == AfterPasses(s1, iodepth, latencyRun, 1) == s2;
    assert AfterPasses(s, iodepth, latencyRun, 3) == AfterPasses(s1, iodepth, latencyRun, 2)
        == AfterPasses(s2, iodepth, latencyRun, 1) == s3;
  }

  /** Windows in time that are needed at most to reach the configured depth. */
  ghost function ToGo(s: Search, iodepth: nat): int {
    if s.qd == iodepth then 0
    else 3 * (iodepth - s.qd) - if s.qd + 1 == s.high then (if s.stable >= 2 then 2 else s.stable) else 0
  }

  lemma PassComesNearer(s: Search, iodepth: nat, latencyRun: bool)
    requires Inv(s, iodepth)
    ensures ToGo(s, iodepth) >= 0
    ensures ToGo(Succeeded(s, iodepth, latencyRun), iodepth) < ToGo(s, iodepth)
         || ToGo(Succeeded(s, iodepth, latencyRun), iodepth) == ToGo(s, iodepth) == 0
  {
    SuccessInBounds(s, iodepth, latencyRun);
  }

  /** A bound that once failed does not hold the depth down: from any state, a device that now passes every
      window has the configured depth after at most three windows per step. */
  lemma {:induction false} PassesReachTheTop(s: Search, iodepth: nat, latencyRun: bool, n: nat)
    requires Inv(s, iodepth) && n >= ToGo(s, iodepth)
    ensures AfterPasses(s, iodepth, latencyRun, n).qd == iodepth
    decreases n
  {
    PassComesNearer(s, iodepth, latencyRun);
    if n > 0 {
      SuccessInBounds(s, iodepth, latencyRun);
      PassesReachTheTop(Succeeded(s, iodepth, latencyRun), iodepth, latencyRun, n - 1);
    }
  }

  /** The state after n windows that were too slow. */
  ghost function AfterFailures(s: Search, iodepth: nat, n: nat): Search
    requires Inv(s, iodepth)
    decreases n
  {
    if n == 0 then s else FailureInBounds(s, iodepth); AfterFailures(Failed(s), iodepth, n - 1)
  }

  lemma FailureInBounds(s: Search, iodepth: nat)
    requires Inv(s, iodepth)
    ensures Inv(Failed(s), iodepth)
    ensures s.qd > 1 ==> Failed(s).qd < s.qd == Failed(s).high
    ensures s.qd == 1 ==> Failed(s) == s
  {}

  /** A lower bound that once passed does not hold the depth up: a device that now fails every window is brought
      down to depth one, where the run gives up. */
  lemma {:induction false} FailuresReachOne(s: Search, iodepth: nat, n: nat)
    requires Inv(s, iodepth) && n >= s.qd - 1
    ensures AfterFailures(s, iodepth, n).qd == 1
    decreases n
  {
    if n > 0 {
      FailureInBounds(s, iodepth);
      FailuresReachOne(Failed(s), iodepth, n - 1);
    }
  }

  // ----- the code -----

  class DepthSearch {
    const iodepth: nat
    const latencyRun: bool
    var qd: nat
    var low: nat
    var high: nat
    var stable: nat
    var endRun: bool
    var done: bool

    ghost function Now(): Search
      reads this
    {
      Search(qd, low, high, stable, endRun, done)
    }

    constructor (iodepth: nat, latencyRun: bool)
      requires iodepth >= 1
      ensures this.iodepth == iodepth && this.latencyRun == latencyRun
      ensures Now() == Search(1, 1, iodepth, 0, false, false) && Inv(Now(), iodepth)
    {
      this.iodepth, this.latencyRun := iodepth, latencyRun;
      qd, low, high, stable, endRun, done := 1, 1, iodepth, 0, false, false;
    }

    /** lat_target_reset */
    method Reset()
      requires Inv(Now(), iodepth)
      modifies this
      ensures Now() == (if old(endRun) then old(Now()) else Started(old(Now()), iodepth)) && Inv(Now(), iodepth)
      ensures stable == old(stable) && endRun == old(endRun) && done == old(done)
      ensures !old(endRun) ==> qd == low == 1 && high == iodepth
    {
      if !endRun {
        endRun := false;
        qd := 1;
        high := iodepth;
        low := 1;
      }
    }

    /** __lat_target_failed; true means give up at depth one. */
    method TargetFailed() returns (giveUp: bool)
      requires Inv(Now(), iodepth)
      modifies this
      ensures Now() == Failed(old(Now())) && Inv(Now(), iodepth)
      ensures giveUp == (old(qd) == 1) && endRun == old(endRun) && done == old(done)
      ensures !giveUp ==> qd < old(qd) == high && qd == (high + low) / 2 && stable == 0
    {
      if qd == 1 { return true; }
      high := qd;
      if qd == low {
        low := low - 1;
      }
      qd := (qd + low) / 2;
      stable := 0;
      return false;
    }

    /** The third window in a row just below the upper bound moves the bound up. */
    method LiftBound()
      modifies this`high, this`stable
      ensures high == Lifted(old(Now())) && stable == Steadied(old(Now()))
    {
      if qd + 1 == high {
        stable := stable + 1;
        if stable >= 3 {
          high := high + 1;
          stable := 0;
        }
      }
    }

    /** Bisect below a bound that failed, else double, within the configured depth. */
    method RaiseDepth()
      modifies this`qd
      ensures qd == Raised(old(Now()), high, iodepth)
    {
      if high != iodepth {
        qd := (qd + high) / 2;
      } else {
        qd := qd * 2;
      }
      if qd > iodepth {
        qd := iodepth;
      }
    }

    method TargetSuccess()
      requires Inv(Now(), iodepth)
      modifies this
      ensures Now() == Succeeded(old(Now()), iodepth, latencyRun) && Inv(Now(), iodepth)
      ensures low == old(qd)
      ensures endRun <==> old(endRun) || (!latencyRun && qd == old(qd))
      ensures done <==> old(done) || (old(endRun) && !latencyRun && qd == old(qd))
    {
      ghost var goal := Succeeded(Now(), iodepth, latencyRun);
      SuccessInBounds(Now(), iodepth, latencyRun);
      var before := qd;
      low := qd;
      LiftBound();
      RaiseDepth();
      assert qd == goal.qd;
      if !latencyRun && qd == before {
        if endRun {
          done := true;
        } else {
          endRun := true;
        }
      }
    }
  }
}
