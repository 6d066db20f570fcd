/** Flow control between jobs (fio4emu/flow.c): a counter shared by the jobs of a flow and one
    counter per job decide who stalls. Jobs are numbered like the threads array; the pair of
    counter updates of a passing job is one step, and the ratios are exact. */
module FlowControl {
  import opened Options

  /** `flow` is the id of the flow the job has joined (td->flow). */
  datatype Job = Job(flow: Option<nat>, weight: nat, counter: nat)
  datatype Flow = Flow(id: nat, refs: int, counter: int, weight: int)
  datatype State = State(flows: seq<Flow>, jobs: seq<Job>)

  // ----- sums over the jobs -----

  ghost function Sum(jobs: seq<Job>, f: Job -> int): int {
    if jobs == [] then 0 else f(jobs[0]) + Sum(jobs[1..], f)
  }

  lemma {:induction false} SumUpdate(jobs: seq<Job>, i: nat, x: Job, f: Job -> int)
    requires i < |jobs|
    ensures Sum(jobs[i := x], f) == Sum(jobs, f) - f(jobs[i]) + f(x)
  {
    if i == 0 {
      assert jobs[i := x][1..] == jobs[1..];
    } else {
      SumUpdate(jobs[1..], i - 1, x, f);
      assert jobs[i := x][1..] == jobs[1..][i - 1 := x];
    }
  }

  lemma {:induction false} SumZero(jobs: seq<Job>, f: Job -> int)
    requires forall i :: 0 <= i < |jobs| ==> f(jobs[i]) == 0
    ensures Sum(jobs, f) == 0
  {
    if jobs != [] { SumZero(jobs[1..], f); }
  }

  /** A sum of terms none of which is positive is at most each of them. */
  lemma {:induction false} SumAtMostTerm(jobs: seq<Job>, f: Job -> int, k: nat)
    requires k < |jobs| && forall i :: 0 <= i < |jobs| ==> f(jobs[i]) <= 0
    ensures Sum(jobs, f) <= f(jobs[k])
  {
    if k > 0 {
      SumAtMostTerm(jobs[1..], f, k - 1);
    } else if |jobs| > 1 {
      SumAtMostTerm(jobs[1..], f, 0);
    }
  }

  /** A negative sum has a negative term. */
  lemma {:induction false} NegativeTerm(jobs: seq<Job>, f: Job -> int) returns (k: nat)
    requires Sum(jobs, f) < 0
    ensures k < |jobs| && f(jobs[k]) < 0
  {
    if f(jobs[0]) < 0 {
      k := 0;
    } else {
      k := NegativeTerm(jobs[1..], f);
      k := k + 1;
    }
  }

  lemma {:induction false} SumNonNegative(jobs: seq<Job>, f: Job -> int)
    requires forall i :: 0 <= i < |jobs| ==> f(jobs[i]) >= 0
    ensures Sum(jobs, f) >= 0
    ensures forall i :: 0 <= i < |jobs| ==> f(jobs[i]) <= Sum(jobs, f)
  {
    if jobs != [] {
      SumNonNegative(jobs[1..], f);
      forall i | 0 <= i < |jobs| ensures f(jobs[i]) <= Sum(jobs, f) {
        if i > 0 { assert jobs[i] == jobs[1..][i - 1]; }
      }
    }
  }

  predicate In(j: Job, id: nat) {
    j.flow == Some(id)
  }
  function Counters(id: nat): Job -> int {
    (j: Job) => if In(j, id) then j.counter else 0
  }
  function Weights(id: nat): Job -> int {
    (j: Job) => if In(j, id) then j.weight else 0
  }
  function Ones(id: nat): Job -> int {
    (j: Job) => if In(j, id) then 1 else 0
  }

  // ----- the operations -----

  /** flow_counter_ratio > flow_weight_ratio */
  predicate Exceeds(counter: int, flowCounter: int, weight: int, totalWeight: int)
    requires flowCounter > 0 && totalWeight > 0
  {
    counter as real / flowCounter as real > weight as real / totalWeight as real
  }

  lemma ExceedsByProducts(c: int, f: int, w: int, t: int)
    requires f > 0 && t > 0
    ensures Exceeds(c, f, w, t) <==> c * t > w * f
  {
    var x, y := c as real / f as real, w as real / t as real;
    var p := f as real * t as real;
    assert p > 0.0;
    assert x * f as real == c as real && y * t as real == w as real;
    assert x * p == (c * t) as real by {
      assert x * p == (x * f as real) * t as real;
    }
    assert y * p == (w * f) as real by {
      assert y * p == (y * t as real) * f as real;
    }
    assert (x - y) * p == x * p - y * p;
    if x > y { assert (x - y) * p > 0.0; }
    if x <= y { assert (x - y) * p <= 0.0; }
  }

  /** The position of the flow with the given id, or the length of the list. */
  function Index(flows: seq<Flow>, id: nat): (k: nat)
    ensures k <= |flows|
    ensures k < |flows| ==> flows[k].id == id
    ensures forall l :: 0 <= l < k ==> flows[l].id != id
  {
    if flows == [] then 0
    else if flows[0].id == id then 0
    else 1 + Index(flows[1..], id)
  }

  /** flow_init_job: a job with a weight joins flow `id`, which is created if need be. */
  function Join(s: State, i: nat, id: nat, w: nat): State
    requires i < |s.jobs|
  {
    if w == 0 then s
    else
      var k := Index(s.flows, id);
      var flows := if k < |s.flows| then s.flows else s.flows + [Flow(id, 0, 1, 0)];
      var f := flows[k];
      State(flows[k := f.(refs := f.refs + 1, weight := f.weight + w)],
            s.jobs[i := Job(Some(id), w, 0)])
  }

  /** The joining job gets its own record, and its flow gains a reference and the job's weight. */
  lemma JoinEffect(s: State, i: nat, id: nat, w: nat)
    requires i < |s.jobs|
    ensures var s' := Join(s, i, id, w); var k := Index(s.flows, id);
      && (w == 0 ==> s' == s)
      && (w > 0 ==> s'.jobs == s.jobs[i := Job(Some(id), w, 0)])
      && (w > 0 && k == |s.flows| ==> s'.flows == s.flows + [Flow(id, 1, 1, w)])
      && (w > 0 && k < |s.flows| ==>
            var f := s.flows[k]; s'.flows == s.flows[k := Flow(id, f.refs + 1, f.counter, f.weight + w)])
  {}

  predicate HasFlow(s: State, i: nat) {
    && i < |s.jobs|
    && (s.jobs[i].flow.Some? ==> Index(s.flows, s.jobs[i].flow.value) < |s.flows|)
  }

  /** flow_exit_job: the job takes its counter and weight out; the last one frees the flow. */
  function Leave(s: State, i: nat): State
    requires HasFlow(s, i)
  {
    var j := s.jobs[i];
    if j.flow.None? then s
    else
      var k := Index(s.flows, j.flow.value);
      var f := s.flows[k];
      var f' := f.(counter := f.counter - j.counter, weight := f.weight - j.weight, refs := f.refs - 1);
      State(if f'.refs == 0 then s.flows[..k] + s.flows[k+1..] else s.flows[k := f'],
            s.jobs[i := j.(flow := None)])
  }

  predicate Countable(s: State, i: nat) {
    && HasFlow(s, i)
    && (s.jobs[i].flow.Some? ==>
          var f := s.flows[Index(s.flows, s.jobs[i].flow.value)];
          f.counter > 0 && f.weight > 0)
  }

  /** Whether flow_threshold_exceeded makes the job wait. */
  predicate Stalled(s: State, i: nat)
    requires Countable(s, i)
  {
    var j := s.jobs[i];
    && j.flow.Some?
    && var f := s.flows[Index(s.flows, j.flow.value)];
       Exceeds(j.counter, f.counter, j.weight, f.weight)
  }

  /** The counters after flow_threshold_exceeded. */
  function Pass(s: State, i: nat): State
    requires Countable(s, i)
  {
    var j := s.jobs[i];
    if j.flow.None? || Stalled(s, i) then s
    else
      var k := Index(s.flows, j.flow.value);
      State(s.flows[k := s.flows[k].(counter := s.flows[k].counter + 1)],
            s.jobs[i := j.(counter := j.counter + 1)])
  }

  // ----- conservation -----

  ghost predicate FlowInv(f: Flow, jobs: seq<Job>) {
    && f.counter == 1 + Sum(jobs, Counters(f.id))
    && f.weight == Sum(jobs, Weights(f.id))
    && f.refs == Sum(jobs, Ones(f.id))
  }

  ghost predicate Inv(s: State) {
    && (forall k, l :: 0 <= k < |s.flows| && 0 <= l < |s.flows| && s.flows[k].id == s.flows[l].id ==> k == l)
    && (forall k :: 0 <= k < |s.flows| ==> FlowInv(s.flows[k], s.jobs) && s.flows[k].refs >= 1)
    && (forall i :: 0 <= i < |s.jobs| && s.jobs[i].flow.Some? ==> s.jobs[i].weight > 0 && HasFlow(s, i))
  }

  /** The sums of every flow after one job changed. */
  lemma SumsAfter(jobs: seq<Job>, i: nat, x: Job, id: nat)
    requires i < |jobs|
    ensures Sum(jobs[i := x], Counters(id)) == Sum(jobs, Counters(id)) - Counters(id)(jobs[i]) + Counters(id)(x)
    ensures Sum(jobs[i := x], Weights(id)) == Sum(jobs, Weights(id)) - Weights(id)(jobs[i]) + Weights(id)(x)
    ensures Sum(jobs[i := x], Ones(id)) == Sum(jobs, Ones(id)) - Ones(id)(jobs[i]) + Ones(id)(x)
  {
    SumUpdate(jobs, i, x, Counters(id));
    SumUpdate(jobs, i, x, Weights(id));
    SumUpdate(jobs, i, x, Ones(id));
  }

  /** A job that joined a listed flow makes that flow's counter and weight positive. */
  lemma MemberCountable(s: State, i: nat)
    requires Inv(s) && i < |s.jobs|
    ensures Countable(s, i)
  {
    if s.jobs[i].flow.Some? {
      assert HasFlow(s, i);
      var f := s.flows[Index(s.flows, s.jobs[i].flow.value)];
      assert FlowInv(f, s.jobs);
      SumNonNegative(s.jobs, Counters(f.id));
      SumNonNegative(s.jobs, Weights(f.id));
      assert Weights(f.id)(s.jobs[i]) > 0;
    }
  }

  lemma PassKeepsInv(s: State, i: nat)
    requires Inv(s) && Countable(s, i)
    ensures Inv(Pass(s, i))
  {
    var s' := Pass(s, i);
    if s' != s {
      forall k | 0 <= k < |s'.flows| ensures FlowInv(s'.flows[k], s'.jobs) && s'.flows[k].refs >= 1 {
        assert FlowInv(s.flows[k], s.jobs);
        SumsAfter(s.jobs, i, s'.jobs[i], s.flows[k].id);
      }
      SameIndices(s.flows, s'.flows);
      forall j | 0 <= j < |s'.jobs| && s'.jobs[j].flow.Some? ensures s'.jobs[j].weight > 0 && HasFlow(s', j) {
        assert HasFlow(s, j);
      }
    }
  }

  lemma {:induction false} SameIndices(a: seq<Flow>, b: seq<Flow>)
    requires |a| == |b| && forall k :: 0 <= k < |a| ==> a[k].id == b[k].id
    ensures forall id :: Index(a, id) == Index(b, id)
  {
    if a != [] { SameIndices(a[1..], b[1..]); }
  }

  lemma IndexFound(flows: seq<Flow>, k: nat)
    requires k < |flows|
    ensures Index(flows, flows[k].id) <= k
  {}

  lemma JoinKeepsInv(s: State, i: nat, id: nat, w: nat)
    requires Inv(s) && i < |s.jobs| && s.jobs[i].flow.None?
    ensures Inv(Join(s, i, id, w))
  {
    if w > 0 {
      var s' := Join(s, i, id, w);
      var k := Index(s.flows, id);
      SumsAfter(s.jobs, i, s'.jobs[i], id);
      if k == |s.flows| {
        NoMembers(s, id);
      }
      forall l | 0 <= l < |s'.flows| ensures FlowInv(s'.flows[l], s'.jobs) && s'.flows[l].refs >= 1 {
        if l != k {
          assert s'.flows[l] == s.flows[l] && s.flows[l].id != id;
          OtherFlowKept(s, i, l, s'.jobs[i]);
        }
      }
      JoinListed(s, i, id, w);
    }
  }

  lemma JoinListed(s: State, i: nat, id: nat, w: nat)
    requires Inv(s) && i < |s.jobs| && w > 0
    ensures var s' := Join(s, i, id, w);
      forall j :: 0 <= j < |s'.jobs| && s'.jobs[j].flow.Some? ==> s'.jobs[j].weight > 0 && HasFlow(s', j)
  {
    var s' := Join(s, i, id, w);
    forall j | 0 <= j < |s'.jobs| && s'.jobs[j].flow.Some? ensures s'.jobs[j].weight > 0 && HasFlow(s', j) {
      var l := if j == i then Index(s.flows, id) else Index(s.flows, s.jobs[j].flow.value);
      assert j != i ==> HasFlow(s, j);
      assert s'.flows[l].id == s'.jobs[j].flow.value;
      IndexFound(s'.flows, l);
    }
  }

  /** A flow that is not listed has no members. */
  lemma NoMembers(s: State, id: nat)
    requires Inv(s) && Index(s.flows, id) == |s.flows|
    ensures Sum(s.jobs, Counters(id)) == Sum(s.jobs, Weights(id)) == Sum(s.jobs, Ones(id)) == 0
  {
    forall i | 0 <= i < |s.jobs| ensures !In(s.jobs[i], id) {
      assert s.jobs[i].flow.Some? ==> HasFlow(s, i);
    }
    SumZero(s.jobs, Counters(id));
    SumZero(s.jobs, Weights(id));
    SumZero(s.jobs, Ones(id));
  }

  /** The sums of a flow the leaving job belonged to. */
  lemma LeaveSums(s: State, i: nat)
    requires Inv(s) && HasFlow(s, i) && s.jobs[i].flow.Some?
    ensures var j := s.jobs[i]; var k := Index(s.flows, j.flow.value); var f := s.flows[k];
      && FlowInv(f.(counter := f.counter - j.counter, weight := f.weight - j.weight, refs := f.refs - 1),
                 s.jobs[i := j.(flow := None)])
      && (f.refs == 1 ==> forall l :: 0 <= l < |s.jobs| && l != i ==> !In(s.jobs[l], f.id))
  {
    var j := s.jobs[i];
    var f := s.flows[Index(s.flows, j.flow.value)];
    var jobs := s.jobs[i := j.(flow := None)];
    assert FlowInv(f, s.jobs);
    SumsAfter(s.jobs, i, j.(flow := None), f.id);
    SumNonNegative(jobs, Ones(f.id));
    forall l | 0 <= l < |s.jobs| && l != i && f.refs == 1 ensures !In(s.jobs[l], f.id) {
      assert Ones(f.id)(jobs[l]) <= 0 && jobs[l] == s.jobs[l];
    }
  }

  /** The assertion in flow_put: when the last member leaves, the shared counter is back at one. */
  lemma LastPutLeavesOne(s: State, i: nat)
    requires Inv(s) && HasFlow(s, i) && s.jobs[i].flow.Some?
    requires s.flows[Index(s.flows, s.jobs[i].flow.value)].refs == 1
    ensures s.flows[Index(s.flows, s.jobs[i].flow.value)].counter - s.jobs[i].counter == 1
  {
    LeaveSums(s, i);
    var id := s.jobs[i].flow.value;
    var jobs := s.jobs[i := s.jobs[i].(flow := None)];
    SumZero(jobs, Counters(id));
  }

  ghost predicate HasMember(jobs: seq<Job>, id: nat) {
    exists m :: 0 <= m < |jobs| && In(jobs[m], id)
  }

  /** The leaving job is in no flow, its counter and weight are out, and the flow is gone exactly if nobody
      is left in it. */
  lemma LeaveEffect(s: State, i: nat)
    requires Inv(s) && HasFlow(s, i)
    ensures var s' := Leave(s, i); var j := s.jobs[i];
      && s'.jobs == s.jobs[i := j.(flow := None)]
      && (j.flow.None? ==> s'.flows == s.flows)
      && (j.flow.Some? ==>
            var k := Index(s.flows, j.flow.value);
            var f := s.flows[k];
            if HasMember(s'.jobs, f.id)
            then f.refs != 1
              && s'.flows == s.flows[k := Flow(f.id, f.refs - 1, f.counter - j.counter, f.weight - j.weight)]
            else f.refs == 1 && s'.flows == s.flows[..k] + s.flows[k+1..])
  {
    if s.jobs[i].flow.Some? {
      LeaveSums(s, i);
      var id := s.jobs[i].flow.value;
      var jobs := s.jobs[i := s.jobs[i].(flow := None)];
      SumNonNegative(jobs, Ones(id));
      if m :| 0 <= m < |jobs| && In(jobs[m], id) {
        assert Ones(id)(jobs[m]) == 1;
      } else {
        SumZero(jobs, Ones(id));
      }
    }
  }

  /** A flow the changed job neither was nor is in keeps its sums. */
  lemma OtherFlowKept(s: State, i: nat, l: nat, x: Job)
    requires Inv(s) && i < |s.jobs| && l < |s.flows|
    requires !In(s.jobs[i], s.flows[l].id) && !In(x, s.flows[l].id)
    ensures FlowInv(s.flows[l], s.jobs[i := x]) && s.flows[l].refs >= 1
  {
    assert FlowInv(s.flows[l], s.jobs);
    SumsAfter(s.jobs, i, x, s.flows[l].id);
  }

  lemma LeaveKeepsInv(s: State, i: nat)
    requires Inv(s) && HasFlow(s, i)
    ensures Inv(Leave(s, i))
  {
    if s.jobs[i].flow.Some? {
      var s' := Leave(s, i);
      var k := Index(s.flows, s.jobs[i].flow.value);
      var gone := s.flows[k].refs == 1;
      LeaveSums(s, i);
      forall l | 0 <= l < |s'.flows| ensures FlowInv(s'.flows[l], s'.jobs) && s'.flows[l].refs >= 1 {
        var l' := if gone && l >= k then l + 1 else l;
        if l' != k {
          assert s'.flows[l] == s.flows[l'];
          OtherFlowKept(s, i, l', s'.jobs[i]);
        }
      }
      LeaveListed(s, i);
    }
  }

  lemma LeaveListed(s: State, i: nat)
    requires Inv(s) && HasFlow(s, i) && s.jobs[i].flow.Some?
    ensures var s' := Leave(s, i);
      forall j :: 0 <= j < |s'.jobs| && s'.jobs[j].flow.Some? ==> s'.jobs[j].weight > 0 && HasFlow(s', j)
  {
    var s' := Leave(s, i);
    var k := Index(s.flows, s.jobs[i].flow.value);
    var gone := s.flows[k].refs == 1;
    LeaveSums(s, i);
    forall j | 0 <= j < |s'.jobs| && s'.jobs[j].flow.Some? ensures s'.jobs[j].weight > 0 && HasFlow(s', j) {
      assert HasFlow(s, j);
      var l' := Index(s.flows, s.jobs[j].flow.value);
      var l := if gone && l' > k then l' - 1 else l';
      assert gone ==> l' != k;
      assert s'.flows[l].id == s'.jobs[j].flow.value;
      IndexFound(s'.flows, l);
    }
  }

  // ----- runs -----

  ghost predicate Next(s: State, s': State) {
    || (exists i: nat, id, w :: i < |s.jobs| && s.jobs[i].flow.None? && s' == Join(s, i, id, w))
    || (exists i: nat :: HasFlow(s, i) && s' == Leave(s, i))
    || (exists i: nat :: Countable(s, i) && s' == Pass(s, i))
  }

  ghost predicate IsRun(run: seq<State>) {
    && run != []
    && run[0].flows == [] && (forall i :: 0 <= i < |run[0].jobs| ==> run[0].jobs[i].flow.None?)
    && forall n :: 0 <= n < |run| - 1 ==> Next(run[n], run[n+1])
  }

  lemma NextKeepsInv(s: State, s': State)
    requires Inv(s) && Next(s, s')
    ensures Inv(s')
  {
    if i: nat, id, w :| i < |s.jobs| && s.jobs[i].flow.None? && s' == Join(s, i, id, w) {
      JoinKeepsInv(s, i, id, w);
    } else if i: nat :| HasFlow(s, i) && s' == Leave(s, i) {
      LeaveKeepsInv(s, i);
    } else {
      var i: nat :| Countable(s, i) && s' == Pass(s, i);
      PassKeepsInv(s, i);
    }
  }

  /** Conservation: in every reachable state a flow's counter is one plus its members' counters, its weight
      the sum of their weights and its references their number, and every member's flow is listed. */
  lemma {:induction false} RunInv(run: seq<State>, n: nat)
    requires IsRun(run) && n < |run|
    ensures Inv(run[n])
  {
    if n > 0 {
      RunInv(run, n - 1);
      assert Next(run[n-1], run[n-1+1]);
      NextKeepsInv(run[n-1], run[n]);
    }
  }

  // ----- no global stall -----

  /** How far a member is above its share, scaled by the total weight. */
  ghost function Excess(id: nat, f: int, t: int, slack: int): Job -> int {
    (j: Job) => if In(j, id) then j.counter * t - j.weight * f - slack else 0
  }

  lemma {:induction false} ExcessSum(jobs: seq<Job>, id: nat, f: int, t: int, slack: int)
    ensures Sum(jobs, Excess(id, f, t, slack))
         == Sum(jobs, Counters(id)) * t - Sum(jobs, Weights(id)) * f - Sum(jobs, Ones(id)) * slack
  {
    if jobs != [] {
      var rest := jobs[1..];
      ExcessSum(rest, id, f, t, slack);
      Distribute(Counters(id)(jobs[0]), Sum(rest, Counters(id)), t);
      Distribute(Weights(id)(jobs[0]), Sum(rest, Weights(id)), f);
      Distribute(Ones(id)(jobs[0]), Sum(rest, Ones(id)), slack);
    }
  }

  lemma Distribute(a: int, b: int, c: int)
    ensures (a + b) * c == a * c + b * c
  {}

  /** No global stall: every flow has a member that may go on. */
  lemma SomeMemberMayPass(s: State, k: nat) returns (i: nat)
    requires Inv(s) && k < |s.flows|
    ensures i < |s.jobs| && In(s.jobs[i], s.flows[k].id) && Countable(s, i) && !Stalled(s, i)
  {
    var f := s.flows[k];
    assert FlowInv(f, s.jobs);
    SumNonNegative(s.jobs, Ones(f.id));
    var m := SomeMember(s.jobs, f.id);
    MemberCountable(s, m);
    IndexFound(s.flows, k);
    ExcessSum(s.jobs, f.id, f.counter, f.weight, 0);
    Distribute(f.counter - 1, 1, f.weight);
    i := NegativeTerm(s.jobs, Excess(f.id, f.counter, f.weight, 0));
    MemberCountable(s, i);
    ExceedsByProducts(s.jobs[i].counter, f.counter, s.jobs[i].weight, f.weight);
  }

  lemma {:induction false} SomeMember(jobs: seq<Job>, id: nat) returns (i: nat)
    requires Sum(jobs, Ones(id)) >= 1
    ensures i < |jobs| && In(jobs[i], id)
  {
    if In(jobs[0], id) {
      i := 0;
    } else {
      i := SomeMember(jobs[1..], id);
      i := i + 1;
    }
  }

  // ----- proportional share -----

  /** The members of flow `id` have not counted anything yet. */
  ghost predicate Fresh(s: State, id: nat) {
    forall i :: 0 <= i < |s.jobs| && In(s.jobs[i], id) ==> s.jobs[i].counter == 0
  }

  /** A run of the same jobs in which flow `id` starts afresh, the others anywhere: only
      flow_threshold_exceeded is called, in any order; request n is made by job who[n]. */
  ghost predicate IsRequestRun(run: seq<State>, who: seq<nat>, id: nat) {
    && |run| == |who| + 1
    && Inv(run[0]) && Fresh(run[0], id)
    && forall n :: 0 <= n < |who| ==> Countable(run[n], who[n]) && run[n+1] == Pass(run[n], who[n])
  }

  /** Request n passes, that is, its job is not made to wait. */
  ghost predicate Passes(run: seq<State>, who: seq<nat>, id: nat, n: nat)
    requires IsRequestRun(run, who, id) && n < |who|
  {
    !Stalled(run[n], who[n])
  }

  /** How many of the first n requests are by job i and pass. */
  ghost function PassedBy(run: seq<State>, who: seq<nat>, id: nat, i: nat, n: nat): nat
    requires IsRequestRun(run, who, id) && n <= |who|
  {
    if n == 0 then 0
    else PassedBy(run, who, id, i, n - 1) + if who[n-1] == i && Passes(run, who, id, n - 1) then 1 else 0
  }

  /** How many of the first n requests are by members of the flow and pass. */
  ghost function PassedIn(run: seq<State>, who: seq<nat>, id: nat, n: nat): nat
    requires IsRequestRun(run, who, id) && n <= |who|
  {
    if n == 0 then 0
    else
      var m := n - 1;
      PassedIn(run, who, id, m) + if In(run[m].jobs[who[m]], id) && Passes(run, who, id, m) then 1 else 0
  }

  predicate WithinShare(j: Job, f: Flow) {
    j.counter * f.weight <= j.weight * f.counter + f.weight
  }

  /** No member of flow `id` is more than one request above its share. */
  ghost predicate UpperShare(s: State, id: nat) {
    var k := Index(s.flows, id);
    k < |s.flows| ==> forall i :: 0 <= i < |s.jobs| && In(s.jobs[i], id) ==> WithinShare(s.jobs[i], s.flows[k])
  }

  lemma PasserWithinShare(j: Job, f: Flow)
    requires j.counter * f.weight <= j.weight * f.counter
    ensures WithinShare(j.(counter := j.counter + 1), f.(counter := f.counter + 1))
  {
    Distribute(j.counter, 1, f.weight);
    Distribute(f.counter, 1, j.weight);
  }

  lemma OthersWithinShare(j: Job, f: Flow, f': Flow)
    requires WithinShare(j, f) && f'.weight == f.weight && f.counter <= f'.counter
    ensures WithinShare(j, f')
  {
    assert j.weight * f.counter <= j.weight * f'.counter;
  }

  lemma PassKeepsUpperShare(s: State, i: nat, id: nat)
    requires Inv(s) && Countable(s, i) && UpperShare(s, id)
    ensures UpperShare(Pass(s, i), id)
  {
    var s' := Pass(s, i);
    if s' != s {
      SameIndices(s.flows, s'.flows);
      var k := Index(s.flows, id);
      if k < |s.flows| {
        var f, f' := s.flows[k], s'.flows[k];
        forall m | 0 <= m < |s'.jobs| && In(s'.jobs[m], id)
          ensures WithinShare(s'.jobs[m], f')
        {
          if m == i {
            ExceedsByProducts(s.jobs[m].counter, f.counter, s.jobs[m].weight, f.weight);
            PasserWithinShare(s.jobs[m], f);
          } else {
            OthersWithinShare(s.jobs[m], f, f');
          }
        }
      }
    }
  }

  lemma {:induction false} RequestRunInv(run: seq<State>, who: seq<nat>, id: nat, n: nat)
    requires IsRequestRun(run, who, id) && n < |run|
    ensures Inv(run[n]) && UpperShare(run[n], id)
  {
    if n == 0 {
      ZeroShare(run[0], id);
    } else {
      RequestRunInv(run, who, id, n - 1);
      assert run[n-1+1] == Pass(run[n-1], who[n-1]);
      PassKeepsInv(run[n-1], who[n-1]);
      PassKeepsUpperShare(run[n-1], who[n-1], id);
    }
  }

  /** From s to s' a request of job i adds one to its counter and to its flow's counter if it passes, and nothing
      else changes for flow `id`. */
  ghost predicate CountsOne(s: State, s': State, i: nat, id: nat)
    requires Countable(s, i)
  {
    var one := if Stalled(s, i) then 0 else 1;
    && |s'.jobs| == |s.jobs| && |s'.flows| == |s.flows|
    && (forall m :: 0 <= m < |s.jobs| ==> In(s'.jobs[m], id) == In(s.jobs[m], id))
    && (forall m :: 0 <= m < |s.jobs| && In(s.jobs[m], id) ==>
          s'.jobs[m].counter == s.jobs[m].counter + if m == i then one else 0)
    && (forall k :: 0 <= k < |s.flows| ==> s'.flows[k].id == s.flows[k].id)
    && (forall k :: 0 <= k < |s.flows| && s.flows[k].id == id ==>
          s'.flows[k].counter == s.flows[k].counter + if In(s.jobs[i], id) then one else 0)
  }

  lemma PassCounts(s: State, i: nat, id: nat)
    requires Inv(s) && Countable(s, i)
    ensures CountsOne(s, Pass(s, i), i, id)
  {}

  lemma RequestCounts(run: seq<State>, who: seq<nat>, id: nat, n: nat)
    requires IsRequestRun(run, who, id) && n < |who|
    ensures CountsOne(run[n], run[n+1], who[n], id)
  {
    RequestRunInv(run, who, id, n);
    assert run[n+1] == Pass(run[n], who[n]);
    PassCounts(run[n], who[n], id);
  }

  /** A member's counter is the number of its requests that passed. */
  lemma {:induction false} JobCountsRequests(run: seq<State>, who: seq<nat>, id: nat, i: nat, n: nat)
    requires IsRequestRun(run, who, id) && n < |run| && i < |run[n].jobs| && In(run[n].jobs[i], id)
    ensures run[n].jobs[i].counter == PassedBy(run, who, id, i, n)
  {
    if n > 0 {
      RequestCounts(run, who, id, n - 1);
      JobCountsRequests(run, who, id, i, n - 1);
    }
  }

  /** The shared counter is one plus the number of the members' requests that passed. */
  lemma {:induction false} FlowCountsRequests(run: seq<State>, who: seq<nat>, id: nat, k: nat, n: nat)
    requires IsRequestRun(run, who, id) && n < |run| && k < |run[n].flows| && run[n].flows[k].id == id
    ensures run[n].flows[k].counter == 1 + PassedIn(run, who, id, n)
  {
    if n == 0 {
      assert FlowInv(run[0].flows[k], run[0].jobs);
      SumZero(run[0].jobs, Counters(id));
    } else {
      RequestCounts(run, who, id, n - 1);
      FlowCountsRequests(run, who, id, k, n - 1);
    }
  }

  lemma ZeroShare(s: State, id: nat)
    requires Inv(s) && Fresh(s, id)
    ensures UpperShare(s, id)
  {
    var k := Index(s.flows, id);
    if k < |s.flows| {
      assert FlowInv(s.flows[k], s.jobs);
      SumNonNegative(s.jobs, Weights(id));
      SumNonNegative(s.jobs, Counters(id));
      forall i | 0 <= i < |s.jobs| && In(s.jobs[i], id)
        ensures WithinShare(s.jobs[i], s.flows[k])
      {
        assert s.jobs[i].weight * s.flows[k].counter >= 0;
      }
    }
  }

  /** Proportional sharing within a constant: with n jobs of total weight W of which P requests have passed, a
      member of weight w has had p of them with (w/W)*(1+P) - n <= p <= (w/W)*(1+P) + 1, after every request. */
  lemma ProportionalShare(run: seq<State>, who: seq<nat>, n: nat, k: nat, i: nat)
    requires n < |run| && k < |run[n].flows| && i < |run[n].jobs|
    requires IsRequestRun(run, who, run[n].flows[k].id) && In(run[n].jobs[i], run[n].flows[k].id)
    ensures var f, j := run[n].flows[k], run[n].jobs[i];
      var p, total := PassedBy(run, who, f.id, i, n), PassedIn(run, who, f.id, n);
      j.weight * (1 + total) - f.refs * f.weight <= p * f.weight <= j.weight * (1 + total) + f.weight
  {
    var s := run[n];
    RequestRunInv(run, who, s.flows[k].id, n);
    JobCountsRequests(run, who, s.flows[k].id, i, n);
    FlowCountsRequests(run, who, s.flows[k].id, k, n);
    IndexFound(s.flows, k);
    assert FlowInv(s.flows[k], s.jobs);
    assert WithinShare(s.jobs[i], s.flows[k]);
    LowerShare(s.jobs, s.flows[k], i);
  }

  /** Since the counters are conserved, nobody far above means nobody far below. */
  lemma LowerShare(jobs: seq<Job>, f: Flow, i: nat)
    requires FlowInv(f, jobs) && i < |jobs| && In(jobs[i], f.id)
    requires forall m :: 0 <= m < |jobs| && In(jobs[m], f.id) ==> WithinShare(jobs[m], f)
    ensures jobs[i].weight * f.counter - f.refs * f.weight <= jobs[i].counter * f.weight
  {
    var e := Excess(f.id, f.counter, f.weight, f.weight);
    ExcessTotal(jobs, f);
    forall m | 0 <= m < |jobs| ensures e(jobs[m]) <= 0 {
      if In(jobs[m], f.id) { assert WithinShare(jobs[m], f); }
    }
    SumAtMostTerm(jobs, e, i);
  }

  lemma ExcessTotal(jobs: seq<Job>, f: Flow)
    requires FlowInv(f, jobs)
    ensures Sum(jobs, Excess(f.id, f.counter, f.weight, f.weight)) == -f.weight - f.refs * f.weight
  {
    ExcessSum(jobs, f.id, f.counter, f.weight, f.weight);
    Distribute(f.counter - 1, 1, f.weight);
  }

  // ----- the code -----

  class FlowTable {
    var flows: seq<Flow>
    var jobs: seq<Job>

    ghost function Now(): State
      reads this
    {
      State(flows, jobs)
    }

    constructor (n: nat)
      ensures flows == [] && |jobs| == n && Inv(Now())
      ensures forall i :: 0 <= i < n ==> jobs[i] == Job(None, 0, 0)
    {
      flows := [];
      jobs := seq(n, i => Job(None, 0, 0));
    }

    /** The list search of flow_get. */
    method Lookup(id: nat) returns (k: nat)
      ensures k == Index(flows, id)
    {
      k := 0;
      while k < |flows| && flows[k].id != id
        invariant k <= |flows| && forall l :: 0 <= l < k ==> flows[l].id != id
      {
        k := k + 1;
      }
    }

    /** flow_get: find or create the flow and take a reference. */
    method FlowGet(id: nat) returns (k: nat)
      modifies this`flows
      ensures var old_k := Index(old(flows), id);
        && k == old_k < |flows|
        && var base := if old_k < |old(flows)| then old(flows) else old(flows) + [Flow(id, 0, 1, 0)];
           flows == base[k := base[k].(refs := base[k].refs + 1)]
    {
      k := Lookup(id);
      if k == |flows| {
        flows := flows + [Flow(id, 0, 1, 0)];
      }
      flows := flows[k := flows[k].(refs := flows[k].refs + 1)];
    }

    method InitJob(i: nat, id: nat, w: nat)
      requires Inv(Now()) && i < |jobs| && jobs[i].flow.None?
      modifies this
      ensures Now() == Join(old(Now()), i, id, w) && Inv(Now())
      ensures w == 0 ==> flows == old(flows) && jobs == old(jobs)
      ensures w > 0 ==> jobs == old(jobs)[i := Job(Some(id), w, 0)]
      ensures var k := Index(old(flows), id);
        && (w > 0 && k == |old(flows)| ==> flows == old(flows) + [Flow(id, 1, 1, w)])
        && (w > 0 && k < |old(flows)| ==>
              var f := old(flows)[k]; flows == old(flows)[k := Flow(id, f.refs + 1, f.counter, f.weight + w)])
    {
      JoinEffect(Now(), i, id, w);
      JoinKeepsInv(Now(), i, id, w);
      if w != 0 {
        var k := FlowGet(id);
        jobs := jobs[i := Job(Some(id), w, 0)];
        flows := flows[k := flows[k].(weight := flows[k].weight + w)];
      }
    }

    /** flow_put: `last` carries the counter that the assertion on the last put checks. */
    method FlowPut(k: nat, counter: nat, weight: nat) returns (last: Option<int>)
      requires k < |flows|
      modifies this`flows
      ensures var f := old(flows)[k];
        if f.refs == 1
        then flows == old(flows)[..k] + old(flows)[k+1..] && last == Some(f.counter - counter)
        else flows == old(flows)[k := f.(counter := f.counter - counter, weight := f.weight - weight, refs := f.refs - 1)]
             && last == None
    {
      flows := flows[k := flows[k].(counter := flows[k].counter - counter)];
      flows := flows[k := flows[k].(weight := flows[k].weight - weight)];
      flows := flows[k := flows[k].(refs := flows[k].refs - 1)];
      last := None;
      if flows[k].refs == 0 {
        last := Some(flows[k].counter);
        flows := flows[..k] + flows[k+1..];
      }
    }

    method ExitJob(i: nat) returns (last: Option<int>)
      requires Inv(Now()) && i < |jobs|
      modifies this
      ensures HasFlow(old(Now()), i) && Now() == Leave(old(Now()), i) && Inv(Now())
      ensures last == if old(jobs)[i].flow.Some? && !HasMember(jobs, old(jobs)[i].flow.value) then Some(1) else None
      ensures jobs == old(jobs)[i := old(jobs)[i].(flow := None)]
      ensures old(jobs)[i].flow.None? ==> flows == old(flows)
      ensures old(jobs)[i].flow.Some? ==>
        var j := old(jobs)[i];
        var k := Index(old(flows), j.flow.value);
        && k < |old(flows)|
        && var f := old(flows)[k];
           if HasMember(jobs, f.id)
           then flows == old(flows)[k := Flow(f.id, f.refs - 1, f.counter - j.counter, f.weight - j.weight)]
           else flows == old(flows)[..k] + old(flows)[k+1..]
    {
      last := None;
      assert HasFlow(Now(), i);
      LeaveKeepsInv(Now(), i);
      LeaveEffect(Now(), i);
      ghost var goal := Leave(Now(), i);
      if jobs[i].flow.Some? {
        var k := Lookup(jobs[i].flow.value);
        if flows[k].refs == 1 { LastPutLeavesOne(Now(), i); }
        last := FlowPut(k, jobs[i].counter, jobs[i].weight);
        assert flows == goal.flows;
        jobs := jobs[i := jobs[i].(flow := None)];
      }
    }

    method ThresholdExceeded(i: nat) returns (stall: bool)
      requires Inv(Now()) && i < |jobs|
      modifies this
      ensures Countable(old(Now()), i) && stall == Stalled(old(Now()), i)
      ensures Now() == Pass(old(Now()), i) && Inv(Now())
      ensures stall || old(jobs)[i].flow.None? ==> flows == old(flows) && jobs == old(jobs)
      ensures old(jobs)[i].flow.None? ==> !stall
      ensures old(jobs)[i].flow.Some? ==>
        var j := old(jobs)[i];
        var k := Index(old(flows), j.flow.value);
        && k < |old(flows)|
        && var f := old(flows)[k];
           && (stall <==> j.counter * f.weight > j.weight * f.counter)
           && (!stall ==> jobs == old(jobs)[i := Job(j.flow, j.weight, j.counter + 1)])
           && (!stall ==> flows == old(flows)[k := Flow(f.id, f.refs, f.counter + 1, f.weight)])
    {
      MemberCountable(Now(), i);
      PassKeepsInv(Now(), i);
      if jobs[i].flow.None? { return false; }
      var k := Lookup(jobs[i].flow.value);
      ExceedsByProducts(jobs[i].counter, flows[k].counter, jobs[i].weight, flows[k].weight);
      if Exceeds(jobs[i].counter, flows[k].counter, jobs[i].weight, flows[k].weight) { return true; }
      flows := flows[k := flows[k].(counter := flows[k].counter + 1)];
      jobs := jobs[i := jobs[i].(counter := jobs[i].counter + 1)];
      return false;
    }
  }
}
