/** scanner/scheduler.py: which stages may run, under dependencies and a limit on I/O. */
module Scheduler {
  import opened Collections
  import opened Wrappers
  import opened Sums
  import opened Ordering
  import opened StageGraph

  /** The two enable flags, for any graph: the stages that are enabled. */
  datatype Config = Config(maxIoCost: int, enabled: set<Id>)

  datatype Plan = Plan(runnable: seq<Id>, blocked: seq<Id>)

  // ----- Which stages are ready -----

  predicate Done(statuses: Statuses, d: Id) {
    d in statuses && statuses[d] in {Completed, Skipped}
  }

  /** Finalization need not wait for an optional stage that failed or is disabled. */
  predicate Excused(g: Graph, c: Config, statuses: Statuses, d: Id) {
    d in g.stages && !g.stages[d].mandatory && (d !in c.enabled || (d in statuses && statuses[d] == Failed))
  }

  /** `_dependencies_satisfied` */
  predicate Satisfied(g: Graph, c: Config, statuses: Statuses, s: Id)
    requires s in g.stages
  {
    forall d :: d in g.stages[s].dependencies ==>
      Done(statuses, d) || (s == g.finalization && Excused(g, c, statuses, d))
  }

  predicate Candidate(c: Config, statuses: Statuses, s: Id) {
    s in statuses && statuses[s] == Pending && s in c.enabled
  }

  function Active(g: Graph, statuses: Statuses): map<Id, nat> {
    map s | s in statuses && s in g.stages && statuses[s] == Running :: g.stages[s].ioCost
  }

  ghost function Available(g: Graph, c: Config, statuses: Statuses): nat {
    var left := c.maxIoCost - Total(Active(g, statuses));
    if left > 0 then left else 0
  }

  /** What the running stages leave of the I/O limit; nothing, if they use it up. */
  lemma AvailableIsWhatIsLeft(g: Graph, c: Config, statuses: Statuses)
    ensures Total(Active(g, statuses)) <= c.maxIoCost ==>
      Available(g, c, statuses) + Total(Active(g, statuses)) == c.maxIoCost
    ensures Total(Active(g, statuses)) >= c.maxIoCost ==> Available(g, c, statuses) == 0
  {
  }

  function CostOf(g: Graph, list: seq<Id>): nat
    requires forall s :: s in list ==> s in g.stages
  {
    if list == [] then 0
    else
      var last := list[|list| - 1];
      assert last in list;
      CostOf(g, list[..|list| - 1]) + g.stages[last].ioCost
  }

  /** The members of `list` that were chosen, in the order of the list. */
  function Keep(list: seq<Id>, chosen: set<Id>): (kept: seq<Id>)
    ensures forall s :: s in kept <==> s in list && s in chosen
  {
    if list == [] then []
    else
      var last := list[|list| - 1];
      Keep(list[..|list| - 1], chosen) + if last in chosen then [last] else []
  }

  lemma {:induction false} KeepAgrees(list: seq<Id>, a: set<Id>, b: set<Id>)
    requires forall s :: s in list ==> (s in a <==> s in b)
    ensures Keep(list, a) == Keep(list, b)
    decreases |list|
  {
    if list != [] {
      assert list[|list| - 1] in list;
      KeepAgrees(list[..|list| - 1], a, b);
    }
  }

  lemma KeepLast(list: seq<Id>, s: Id, chosen: set<Id>)
    ensures Keep(list + [s], chosen) == Keep(list, chosen) + if s in chosen then [s] else []
  {
    assert (list + [s])[..|list|] == list;
  }

  lemma CostLast(g: Graph, list: seq<Id>, s: Id)
    requires s in g.stages && forall x :: x in list ==> x in g.stages
    ensures CostOf(g, list + [s]) == CostOf(g, list) + g.stages[s].ioCost
  {
    assert (list + [s])[..|list|] == list;
  }

  /** The stage fits into what the stages chosen before it leave of the I/O limit. */
  ghost predicate FitsAt(g: Graph, available: nat, order: seq<Id>, chosen: set<Id>, i: nat)
    requires i < |order| && forall s :: s in order ==> s in g.stages
  {
    CostOf(g, Keep(order[..i], chosen)) + g.stages[order[i]].ioCost <= available
  }

  /** A stage is chosen if and only if it is a candidate, its dependencies allow it, and it fits. */
  ghost predicate ChosenAt(
    g: Graph, c: Config, statuses: Statuses, available: nat, order: seq<Id>, chosen: set<Id>, i: nat)
    requires i < |order| && forall s :: s in order ==> s in g.stages
  {
    order[i] in chosen <==>
      Candidate(c, statuses, order[i]) && Satisfied(g, c, statuses, order[i]) && FitsAt(g, available, order, chosen, i)
  }

  /** The candidates that were not chosen. */
  function Waiting(c: Config, statuses: Statuses, chosen: set<Id>): set<Id> {
    set s | s in statuses.Keys - chosen && Candidate(c, statuses, s)
  }

  /** The plan for the first `k` stages of the order. */
  ghost predicate PlanUpTo(g: Graph, c: Config, statuses: Statuses, available: nat, order: seq<Id>, k: nat, plan: Plan)
    requires k <= |order| && forall s :: s in order ==> s in g.stages
  {
    var chosen := Elements(plan.runnable);
    && plan.runnable == Keep(order[..k], chosen)
    && plan.blocked == Keep(order[..k], Waiting(c, statuses, chosen))
    && (forall i: nat :: i < k ==> ChosenAt(g, c, statuses, available, order, chosen, i))
  }

  lemma SkipOne(g: Graph, c: Config, statuses: Statuses, available: nat, order: seq<Id>, k: nat, plan: Plan)
    requires Topological(g, order) && k < |order| && PlanUpTo(g, c, statuses, available, order, k, plan)
    requires !Candidate(c, statuses, order[k])
    ensures PlanUpTo(g, c, statuses, available, order, k + 1, plan)
  {
    var chosen := Elements(plan.runnable);
    assert order[..k + 1] == order[..k] + [order[k]];
    NotYet(order, k, plan.runnable, chosen);
    KeepLast(order[..k], order[k], chosen);
    KeepLast(order[..k], order[k], Waiting(c, statuses, chosen));
  }

  /** What was chosen so far lies before position `k`. */
  lemma NotYet(order: seq<Id>, k: nat, list: seq<Id>, chosen: set<Id>)
    requires Distinct(order)
    requires k < |order| && list == Keep(order[..k], chosen)
    ensures order[k] !in list
  {
  }

  lemma BlockOne(g: Graph, c: Config, statuses: Statuses, available: nat, order: seq<Id>, k: nat, plan: Plan)
    requires Topological(g, order) && k < |order| && PlanUpTo(g, c, statuses, available, order, k, plan)
    requires Candidate(c, statuses, order[k])
    requires !(Satisfied(g, c, statuses, order[k]) && CostOf(g, plan.runnable) + g.stages[order[k]].ioCost <= available)
    ensures PlanUpTo(g, c, statuses, available, order, k + 1, plan.(blocked := plan.blocked + [order[k]]))
  {
    var chosen := Elements(plan.runnable);
    assert order[..k + 1] == order[..k] + [order[k]];
    NotYet(order, k, plan.runnable, chosen);
    KeepLast(order[..k], order[k], chosen);
    KeepLast(order[..k], order[k], Waiting(c, statuses, chosen));
  }

  lemma ChooseOne(g: Graph, c: Config, statuses: Statuses, available: nat, order: seq<Id>, k: nat, plan: Plan)
    requires Topological(g, order) && k < |order| && PlanUpTo(g, c, statuses, available, order, k, plan)
    requires Candidate(c, statuses, order[k]) && Satisfied(g, c, statuses, order[k])
    requires CostOf(g, plan.runnable) + g.stages[order[k]].ioCost <= available
    ensures PlanUpTo(g, c, statuses, available, order, k + 1, plan.(runnable := plan.runnable + [order[k]]))
  {
    var s, before := order[k], Elements(plan.runnable);
    assert Elements(plan.runnable + [s]) == before + {s};
    assert order[..k + 1] == order[..k] + [s];
    KeepBefore(order, k, before, k);
    KeepLast(order[..k], s, before + {s});
    BlockedStays(c, statuses, order, k, before);
    forall i: nat | i < k + 1 ensures ChosenAt(g, c, statuses, available, order, before + {s}, i) {
      KeepBefore(order, k, before, i);
      if i < k {
        assert ChosenAt(g, c, statuses, available, order, before, i);
        assert order[i] != s;
      }
    }
  }

  /** Choosing a stage blocks no other. */
  lemma BlockedStays(c: Config, statuses: Statuses, order: seq<Id>, k: nat, chosen: set<Id>)
    requires Distinct(order) && k < |order|
    ensures Keep(order[..k + 1], Waiting(c, statuses, chosen + {order[k]})) ==
      Keep(order[..k], Waiting(c, statuses, chosen))
  {
    var s := order[k];
    assert s !in order[..k] && order[..k + 1] == order[..k] + [s];
    KeepLast(order[..k], s, Waiting(c, statuses, chosen + {s}));
    KeepAgrees(order[..k], Waiting(c, statuses, chosen), Waiting(c, statuses, chosen + {s}));
  }

  /** A choice of a later stage leaves what is kept of the earlier ones. */
  lemma KeepBefore(order: seq<Id>, k: nat, chosen: set<Id>, i: nat)
    requires Distinct(order) && i <= k < |order|
    ensures Keep(order[..i], chosen) == Keep(order[..i], chosen + {order[k]})
  {
    assert order[k] !in order[..i];
    KeepAgrees(order[..i], chosen, chosen + {order[k]});
  }

  lemma PlannedStage(g: Graph, c: Config, statuses: Statuses, available: nat, order: seq<Id>, plan: Plan, s: Id)
    requires Topological(g, order) && PlanUpTo(g, c, statuses, available, order, |order|, plan) && s in plan.runnable
    ensures s in g.stages && Candidate(c, statuses, s) && Satisfied(g, c, statuses, s)
  {
    assert order[..|order|] == order;
    var i: nat :| i < |order| && order[i] == s;
    assert ChosenAt(g, c, statuses, available, order, Elements(plan.runnable), i);
  }

  /** A stage of the plan is pending and enabled, and each of its dependencies is over or may be done without. */
  ghost predicate MayRun(g: Graph, c: Config, statuses: Statuses, s: Id) {
    && s in g.stages && s in statuses && statuses[s] == Pending && s in c.enabled
    && forall d :: d in g.stages[s].dependencies ==>
      || (d in statuses && (statuses[d] == Completed || statuses[d] == Skipped))
      || (s == g.finalization && d in g.stages && !g.stages[d].mandatory
          && (d !in c.enabled || (d in statuses && statuses[d] == Failed)))
  }

  /** Every pending enabled stage is in the plan, as runnable or as blocked, and nothing else is. */
  lemma PlanHoldsCandidates(
    g: Graph, c: Config, statuses: Statuses, available: nat, order: seq<Id>, plan: Plan, s: Id)
    requires Topological(g, order) && PlanUpTo(g, c, statuses, available, order, |order|, plan)
    ensures s in plan.runnable ==> MayRun(g, c, statuses, s) && s !in plan.blocked
    ensures s in plan.blocked ==> s in statuses && statuses[s] == Pending && s in c.enabled
    ensures s in g.stages && s in statuses && statuses[s] == Pending && s in c.enabled ==>
      s in plan.runnable || s in plan.blocked
  {
    assert order[..|order|] == order;
    if s in plan.runnable {
      PlannedStage(g, c, statuses, available, order, plan, s);
    }
  }

  /** `runnable_stages`, past its validation of the arguments. */
  method PlanInOrder(g: Graph, c: Config, statuses: Statuses, order: seq<Id>) returns (plan: Plan)
    requires Topological(g, order) && statuses.Keys == g.stages.Keys
    ensures PlanUpTo(g, c, statuses, Available(g, c, statuses), order, |order|, plan)
    ensures CostOf(g, plan.runnable) <= Available(g, c, statuses)
  {
    var active := SumOf(Active(g, statuses));
    var left := if c.maxIoCost - active > 0 then c.maxIoCost - active else 0;
    ghost var available := Available(g, c, statuses);
    plan := Plan([], []);
    for k := 0 to |order|
      invariant PlanUpTo(g, c, statuses, available, order, k, plan)
      invariant left == available - CostOf(g, plan.runnable) && left >= 0
    {
      var s := order[k];
      if statuses[s] != Pending || s !in c.enabled {
        SkipOne(g, c, statuses, available, order, k, plan);
      } else if !Satisfied(g, c, statuses, s) || g.stages[s].ioCost > left {
        BlockOne(g, c, statuses, available, order, k, plan);
        plan := plan.(blocked := plan.blocked + [s]);
      } else {
        ChooseOne(g, c, statuses, available, order, k, plan);
        CostLast(g, plan.runnable, s);
        plan := plan.(runnable := plan.runnable + [s]);
        left := left - g.stages[s].ioCost;
      }
    }
  }

  method RunnableStages(g: Graph, c: Config, statuses: Statuses)
    returns (r: Result<Plan, SchedulerError>, ghost order: seq<Id>)
    ensures r.Ok? <==> statuses.Keys == g.stages.Keys && c.maxIoCost >= 1 && exists o :: Topological(g, o)
    ensures r == Err(UnknownStatuses) <==> statuses.Keys != g.stages.Keys
    ensures r == Err(InvalidConfig) <==> statuses.Keys == g.stages.Keys && c.maxIoCost < 1
    ensures r == Err(DependencyCycle) <==>
      statuses.Keys == g.stages.Keys && c.maxIoCost >= 1 && !exists o :: Topological(g, o)
    ensures r.Ok? ==>
      && Topological(g, order)
      && PlanUpTo(g, c, statuses, Available(g, c, statuses), order, |order|, r.value)
      && CostOf(g, r.value.runnable) <= Available(g, c, statuses)
      && (forall s :: s in r.value.runnable ==> MayRun(g, c, statuses, s) && s !in r.value.blocked)
      && (forall s :: s in r.value.runnable || s in r.value.blocked <==>
            s in g.stages && statuses[s] == Pending && s in c.enabled)
  {
    order := [];
    if statuses.Keys != g.stages.Keys {
      return Err(UnknownStatuses), order;
    }
    if c.maxIoCost < 1 {
      return Err(InvalidConfig), order;
    }
    var ordered, _ := StageOrder(g);
    if ordered.Err? {
      return Err(ordered.error), order;
    }
    order := ordered.value;
    var plan := PlanInOrder(g, c, statuses, ordered.value);
    forall s
      ensures s in plan.runnable ==> MayRun(g, c, statuses, s) && s !in plan.blocked
      ensures s in plan.runnable || s in plan.blocked <==> s in g.stages && statuses[s] == Pending && s in c.enabled
    {
      PlanHoldsCandidates(g, c, statuses, Available(g, c, statuses), order, plan, s);
    }
    r := Ok(plan);
  }

  // ----- Graphs that cannot get stuck -----

  /** What `STAGES` is like under every configuration. */
  ghost predicate Shaped(g: Graph, c: Config) {
    && c.maxIoCost >= 1
    && g.finalization in g.stages && g.finalization in c.enabled && g.stages[g.finalization].mandatory
    && (exists order :: Topological(g, order))
    && (forall s :: s in g.stages && s in c.enabled ==> g.stages[s].ioCost <= c.maxIoCost)
    && (forall s :: s in g.stages && g.stages[s].mandatory ==> s in c.enabled)
    && (forall s, d :: s in g.stages && s != g.finalization && d in g.stages[s].dependencies ==> d in c.enabled)
  }

  /** Nothing runs, and failures have spread: then the first pending stage can run. */
  ghost predicate Quiet(g: Graph, statuses: Statuses) {
    && Propagated(g, statuses, statuses)
    && forall s :: s in statuses ==> statuses[s] != Running && statuses[s] != Paused
  }

  lemma FirstPendingIsSatisfied(g: Graph, c: Config, statuses: Statuses, order: seq<Id>, k: nat)
    requires Shaped(g, c) && Topological(g, order) && Quiet(g, statuses) && k < |order|
    requires Candidate(c, statuses, order[k]) && forall i :: 0 <= i < k ==> !Candidate(c, statuses, order[i])
    ensures Satisfied(g, c, statuses, order[k])
  {
    var s := order[k];
    assert DependenciesBefore(g, order, k) && SpreadAt(g, statuses, statuses, s);
    forall d | d in g.stages[s].dependencies
      ensures Done(statuses, d) || (s == g.finalization && Excused(g, c, statuses, d))
    {
      var i: nat :| i < k && order[i] == d;
      assert d in order;
      assert !Candidate(c, statuses, d);
    }
  }

  lemma {:induction false} NothingKept(list: seq<Id>, chosen: set<Id>)
    requires forall s :: s in list ==> s !in chosen
    ensures Keep(list, chosen) == []
  {
    if Keep(list, chosen) != [] {
      assert Keep(list, chosen)[0] in Keep(list, chosen);
    }
  }

  /** Whenever nothing runs and an enabled stage is pending, the plan is not empty. */
  lemma PlanIsNotEmpty(g: Graph, c: Config, statuses: Statuses, order: seq<Id>, plan: Plan, s: Id)
    requires Shaped(g, c) && Topological(g, order) && Quiet(g, statuses)
    requires PlanUpTo(g, c, statuses, Available(g, c, statuses), order, |order|, plan)
    requires Candidate(c, statuses, s)
    ensures plan.runnable != []
  {
    var chosen := Elements(plan.runnable);
    assert s in order;
    var k: nat :| k < |order| && order[k] == s;
    var first := FirstCandidate(c, statuses, order, k);
    FirstPendingIsSatisfied(g, c, statuses, order, first);
    assert Active(g, statuses) == map[];
    forall x | x in order[..first] ensures x !in chosen {
      var i: nat :| i < first && order[i] == x;
      assert ChosenAt(g, c, statuses, Available(g, c, statuses), order, chosen, i);
    }
    NothingKept(order[..first], chosen);
    assert ChosenAt(g, c, statuses, Available(g, c, statuses), order, chosen, first);
  }

  ghost function FirstCandidate(c: Config, statuses: Statuses, order: seq<Id>, k: nat): (first: nat)
    requires k < |order| && Candidate(c, statuses, order[k])
    ensures first <= k && Candidate(c, statuses, order[first])
    ensures forall i :: 0 <= i < first ==> !Candidate(c, statuses, order[i])
    decreases k
  {
    if exists j: nat :: j < k && Candidate(c, statuses, order[j])
    then
      var j: nat :| j < k && Candidate(c, statuses, order[j]);
      FirstCandidate(c, statuses, order, j)
    else k
  }
}
