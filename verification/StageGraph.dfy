/** scanner/scheduler.py: the stage graph, its order, and how a failure spreads through it. */
module StageGraph {
  import opened Collections
  import opened Wrappers
  import opened Ordering

  /** Stage names are only compared and sorted, so a stage is its rank in that order. */
  datatype Stage = Stage(dependencies: set<Id>, ioCost: nat, mandatory: bool)

  datatype Graph = Graph(stages: map<Id, Stage>, finalization: Id)

  datatype Status = Pending | Running | Paused | Completed | Failed | Skipped

  type Statuses = map<Id, Status>

  datatype SchedulerError = DependencyCycle | UnknownStatuses | UnknownStage | InvalidConfig | IncompleteDependencies

  // ----- Order -----

  ghost predicate DependenciesBefore(g: Graph, order: seq<Id>, i: nat)
    requires i < |order|
  {
    order[i] in g.stages && forall d :: d in g.stages[order[i]].dependencies ==> d in order[..i]
  }

  /** Every stage once, after all its dependencies. */
  ghost predicate Topological(g: Graph, order: seq<Id>) {
    && Distinct(order)
    && (forall s :: s in order <==> s in g.stages)
    && (forall i: nat :: i < |order| ==> DependenciesBefore(g, order, i))
  }

  function Ready(g: Graph, completed: set<Id>, remaining: set<Id>): set<Id>
    requires remaining <= g.stages.Keys
  {
    set s | s in remaining && g.stages[s].dependencies <= completed
  }

  /** Stages that wait for one another, or for something that is no stage, have no order. */
  lemma WaitingStagesHaveNoOrder(g: Graph, waiting: set<Id>, order: seq<Id>)
    requires waiting <= g.stages.Keys && waiting != {}
    requires Ready(g, g.stages.Keys - waiting, waiting) == {}
    ensures !Topological(g, order)
  {
    if Topological(g, order) {
      var s :| s in waiting;
      var k: nat :| k < |order| && order[k] == s;
      NoneWaitsFirst(g, waiting, order, k);
    }
  }

  lemma {:induction false} NoneWaitsFirst(g: Graph, waiting: set<Id>, order: seq<Id>, k: nat)
    requires waiting <= g.stages.Keys && Topological(g, order) && k < |order|
    requires Ready(g, g.stages.Keys - waiting, waiting) == {}
    ensures order[k] !in waiting
    decreases k
  {
    if order[k] in waiting {
      assert DependenciesBefore(g, order, k);
      assert order[k] !in Ready(g, g.stages.Keys - waiting, waiting);
      var d :| d in g.stages[order[k]].dependencies && d !in g.stages.Keys - waiting;
      var i: nat :| i < k && order[i] == d;
      NoneWaitsFirst(g, waiting, order, i);
    }
  }

  /** A level of ready stages may follow what is completed. */
  lemma LevelExtendsOrder(g: Graph, order: seq<Id>, remaining: set<Id>, level: seq<Id>)
    requires remaining <= g.stages.Keys
    requires Distinct(order)
    requires forall s :: s in order <==> s in g.stages.Keys - remaining
    requires forall i: nat :: i < |order| ==> DependenciesBefore(g, order, i)
    requires Ascending(level) && forall s :: s in level <==> s in Ready(g, g.stages.Keys - remaining, remaining)
    ensures Distinct(order + level)
    ensures forall i: nat :: i < |order + level| ==> DependenciesBefore(g, order + level, i)
  {
    var longer := order + level;
    forall i: nat | i < |longer| ensures DependenciesBefore(g, longer, i) {
      if i < |order| {
        assert DependenciesBefore(g, order, i) && longer[..i] == order[..i];
      } else {
        assert longer[i] in level;
        forall d | d in g.stages[longer[i]].dependencies ensures d in longer[..i] {
          var k: nat :| k < |order| && order[k] == d;
          assert longer[..i][k] == d;
        }
      }
    }
    forall i, j | 0 <= i < j < |longer| ensures longer[i] != longer[j] {
      assert longer[i] == if i < |order| then order[i] else level[i - |order|];
      assert longer[j] == if j < |order| then order[j] else level[j - |order|];
      if i < |order| <= j {
        assert longer[i] in order && longer[j] in level;
      }
    }
  }

  /** A level holds, by name, all stages that are ready once the levels before it are completed. */
  ghost predicate LevelAt(g: Graph, levels: seq<seq<Id>>, k: nat)
    requires k < |levels|
  {
    var completed := Elements(Flatten(levels[..k])) * g.stages.Keys;
    levels[k] != [] && Sorts(levels[k], Ready(g, completed, g.stages.Keys - completed))
  }

  ghost predicate InLevels(g: Graph, levels: seq<seq<Id>>) {
    forall k: nat :: k < |levels| ==> LevelAt(g, levels, k)
  }

  lemma OneMoreLevel(g: Graph, levels: seq<seq<Id>>, completed: set<Id>, level: seq<Id>)
    requires InLevels(g, levels) && completed <= g.stages.Keys && Elements(Flatten(levels)) == completed
    requires level != [] && Sorts(level, Ready(g, completed, g.stages.Keys - completed))
    ensures InLevels(g, levels + [level])
    ensures Elements(Flatten(levels + [level])) == completed + Elements(level)
  {
    var longer := levels + [level];
    forall k: nat | k < |longer| ensures LevelAt(g, longer, k) {
      if k < |levels| {
        assert LevelAt(g, levels, k) && longer[..k] == levels[..k];
      } else {
        assert longer[..k] == levels;
        assert completed * g.stages.Keys == completed;
      }
    }
    FlattenSnoc(levels, level);
  }

  lemma {:induction false} LevelsAgree(g: Graph, a: seq<seq<Id>>, b: seq<seq<Id>>, k: nat)
    requires InLevels(g, a) && InLevels(g, b) && k <= |a| && k <= |b|
    ensures a[..k] == b[..k]
    decreases k
  {
    if k > 0 {
      LevelsAgree(g, a, b, k - 1);
      assert LevelAt(g, a, k - 1) && LevelAt(g, b, k - 1);
      AscendingIsUnique(a[k - 1], b[k - 1]);
      assert a[..k] == a[..k - 1] + [a[k - 1]] && b[..k] == b[..k - 1] + [b[k - 1]];
    }
  }

  lemma CompleteOrderHasNoMoreLevels(g: Graph, a: seq<seq<Id>>, b: seq<seq<Id>>)
    requires InLevels(g, a) && InLevels(g, b) && Elements(Flatten(a)) == g.stages.Keys
    ensures |b| <= |a|
  {
    if |b| > |a| {
      LevelsAgree(g, a, b, |a|);
      assert a[..|a|] == a && LevelAt(g, b, |a|);
      FirstIsElement(b[|a|]);
    }
  }

  /** The order is stable: the graph alone determines it. */
  lemma OrderIsStable(g: Graph, a: seq<seq<Id>>, b: seq<seq<Id>>)
    requires InLevels(g, a) && Topological(g, Flatten(a))
    requires InLevels(g, b) && Topological(g, Flatten(b))
    ensures Flatten(a) == Flatten(b)
  {
    assert Elements(Flatten(a)) == g.stages.Keys && Elements(Flatten(b)) == g.stages.Keys;
    CompleteOrderHasNoMoreLevels(g, a, b);
    CompleteOrderHasNoMoreLevels(g, b, a);
    LevelsAgree(g, a, b, |a|);
    assert a[..|a|] == a && b[..|b|] == b;
  }

  /** The stages that no longer remain are in order. */
  ghost predicate OrderSoFar(g: Graph, order: seq<Id>, levels: seq<seq<Id>>, remaining: set<Id>) {
    && remaining <= g.stages.Keys
    && Distinct(order)
    && (forall s :: s in order <==> s in g.stages.Keys - remaining)
    && (forall i: nat :: i < |order| ==> DependenciesBefore(g, order, i))
    && InLevels(g, levels) && order == Flatten(levels)
  }

  lemma OrderGoesOn(g: Graph, order: seq<Id>, levels: seq<seq<Id>>, remaining: set<Id>, level: seq<Id>)
    requires OrderSoFar(g, order, levels, remaining)
    requires level != [] && Ascending(level) && forall s :: s in level <==>
      s in Ready(g, g.stages.Keys - remaining, remaining)
    ensures OrderSoFar(g, order + level, levels + [level], remaining - Ready(g, g.stages.Keys - remaining, remaining))
  {
    var completed := g.stages.Keys - remaining;
    LevelExtendsOrder(g, order, remaining, level);
    assert Elements(level) == Ready(g, completed, remaining) && Elements(order) == completed;
    assert g.stages.Keys - completed == remaining;
    OneMoreLevel(g, levels, completed, level);
    FlattenSnoc(levels, level);
  }

  /** `stage_order`: a topological order, or an error exactly when there is none. */
  method StageOrder(g: Graph) returns (r: Result<seq<Id>, SchedulerError>, ghost levels: seq<seq<Id>>)
    ensures r.Ok? ==> Topological(g, r.value) && InLevels(g, levels) && r.value == Flatten(levels)
    ensures r.Err? ==> r.error == DependencyCycle && forall order :: !Topological(g, order)
  {
    var remaining := g.stages.Keys;
    var order: seq<Id> := [];
    levels := [];
    while remaining != {}
      invariant OrderSoFar(g, order, levels, remaining)
      decreases |remaining|
    {
      var ready := Ready(g, g.stages.Keys - remaining, remaining);
      if ready == {} {
        forall other ensures !Topological(g, other) {
          WaitingStagesHaveNoOrder(g, remaining, other);
        }
        return Err(DependencyCycle), levels;
      }
      var level := Sorted(ready);
      var first :| first in ready;
      assert first in level;
      OrderGoesOn(g, order, levels, remaining, level);
      order, levels := order + level, levels + [level];
      remaining := remaining - ready;
    }
    return Ok(order), levels;
  }

  // ----- Failure -----

  predicate FailedMandatory(g: Graph, statuses: Statuses, s: Id)
    requires s in g.stages
  {
    exists d :: d in g.stages[s].dependencies && d in g.stages && d in statuses && statuses[d] == Failed
      && g.stages[d].mandatory
  }

  predicate FailedOptional(g: Graph, statuses: Statuses, s: Id)
    requires s in g.stages
  {
    exists d :: d in g.stages[s].dependencies && d in g.stages && d in statuses && statuses[d] == Failed
      && !g.stages[d].mandatory
  }

  /** What a stage becomes, given what the stages it depends on became. */
  function Spread(g: Graph, before: Status, after: Statuses, s: Id): Status
    requires s in g.stages
  {
    if before != Pending then before
    else if FailedMandatory(g, after, s) then Failed
    else if s != g.finalization && FailedOptional(g, after, s) then Skipped
    else Pending
  }

  ghost predicate SpreadAt(g: Graph, before: Statuses, after: Statuses, s: Id)
    requires s in g.stages && s in before
  {
    s in after && after[s] == Spread(g, before[s], after, s)
  }

  /** The failures have spread as far as they go. */
  ghost predicate Propagated(g: Graph, before: Statuses, after: Statuses) {
    && before.Keys == after.Keys == g.stages.Keys
    && forall s :: s in g.stages ==> SpreadAt(g, before, after, s)
  }

  /**
    * What becomes of each stage: only pending ones change; one fails exactly if a mandatory
    * dependency has failed, and is skipped exactly if only optional ones have and it is not the
    * finalization.
    */
  lemma PropagatedMeans(g: Graph, before: Statuses, after: Statuses, s: Id)
    requires Propagated(g, before, after) && s in g.stages
    ensures var deps := g.stages[s].dependencies * g.stages.Keys * after.Keys;
      var mandatory := exists d :: d in deps && after[d] == Failed && g.stages[d].mandatory;
      var optional := exists d :: d in deps && after[d] == Failed && !g.stages[d].mandatory;
      && s in before && s in after
      && (before[s] != Pending ==> after[s] == before[s])
      && (before[s] == Pending ==>
            && (after[s] == Failed <==> mandatory)
            && (after[s] == Skipped <==> !mandatory && optional && s != g.finalization)
            && after[s] in {Pending, Failed, Skipped})
  {
    assert SpreadAt(g, before, after, s);
  }

  lemma SpreadDependsOnDependencies(g: Graph, before: Status, p: Statuses, q: Statuses, s: Id)
    requires s in g.stages
    requires forall d :: d in g.stages[s].dependencies ==> (d in p <==> d in q) && (d in p ==> p[d] == q[d])
    ensures Spread(g, before, p, s) == Spread(g, before, q, s)
  {
  }

  lemma {:induction false} SpreadIsSameAt(g: Graph, order: seq<Id>, before: Statuses, p: Statuses, q: Statuses, k: nat)
    requires Topological(g, order) && Propagated(g, before, p) && Propagated(g, before, q) && k < |order|
    ensures order[k] in g.stages && p[order[k]] == q[order[k]]
    decreases k
  {
    var s := order[k];
    assert DependenciesBefore(g, order, k) && SpreadAt(g, before, p, s) && SpreadAt(g, before, q, s);
    forall d | d in g.stages[s].dependencies ensures d in g.stages && p[d] == q[d] {
      var i: nat :| i < k && order[i] == d;
      SpreadIsSameAt(g, order, before, p, q, i);
    }
    SpreadDependsOnDependencies(g, before[s], p, q, s);
  }

  /** There is only one way for failures to spread through an ordered graph. */
  lemma SpreadIsUnique(g: Graph, order: seq<Id>, before: Statuses, p: Statuses, q: Statuses)
    requires Topological(g, order) && Propagated(g, before, p) && Propagated(g, before, q)
    ensures p == q
  {
    forall s | s in p ensures p[s] == q[s] {
      var k: nat :| k < |order| && order[k] == s;
      SpreadIsSameAt(g, order, before, p, q, k);
    }
  }

  /** The pass has reached position `k`. */
  ghost predicate SpreadUpTo(g: Graph, order: seq<Id>, before: Statuses, updated: Statuses, k: nat) {
    && updated.Keys == before.Keys == g.stages.Keys
    && k <= |order|
    && (forall i :: 0 <= i < |order| ==> order[i] in g.stages)
    && (forall i :: 0 <= i < k ==> SpreadAt(g, before, updated, order[i]))
    && (forall i :: k <= i < |order| ==> updated[order[i]] == before[order[i]])
  }

  lemma SpreadOneMore(g: Graph, order: seq<Id>, before: Statuses, was: Statuses, k: nat)
    requires Topological(g, order) && SpreadUpTo(g, order, before, was, k) && k < |order|
    ensures SpreadUpTo(g, order, before, was[order[k] := Spread(g, was[order[k]], was, order[k])], k + 1)
  {
    var s := order[k];
    var updated := was[s := Spread(g, was[s], was, s)];
    forall i: nat | i < k + 1 ensures SpreadAt(g, before, updated, order[i]) {
      assert DependenciesBefore(g, order, i);
      assert s !in order[..i] by {
        assert forall j :: 0 <= j < i ==> order[j] != s;
      }
      SpreadDependsOnDependencies(g, before[order[i]], was, updated, order[i]);
      assert i < k ==> SpreadAt(g, before, was, order[i]);
    }
  }

  lemma SpreadThroughout(g: Graph, order: seq<Id>, before: Statuses, updated: Statuses)
    requires Topological(g, order) && SpreadUpTo(g, order, before, updated, |order|)
    ensures Propagated(g, before, updated)
  {
    forall s | s in g.stages ensures SpreadAt(g, before, updated, s) {
      assert s in order;
    }
  }

  /** Whether the scan has failed: the stage itself was mandatory, or a further stage failed with it. */
  ghost predicate ScanFails(g: Graph, before: Statuses, after: Statuses, failed: Id)
    requires failed in g.stages && before.Keys == after.Keys
  {
    g.stages[failed].mandatory || exists s :: s in before && before[s] == Pending && after[s] == Failed
  }

  lemma FlagOneMore(g: Graph, before: Statuses, updated: Statuses, failed: Id, s: Id)
    requires failed in g.stages && before.Keys == updated.Keys == g.stages.Keys && s in g.stages
      && updated[s] == before[s]
    ensures updated[s := updated[s]] == updated
    ensures updated[s] == Pending ==> ScanFails(g, before, updated[s := Failed], failed)
    ensures updated[s] == Pending ==>
      (ScanFails(g, before, updated[s := Skipped], failed) <==> ScanFails(g, before, updated, failed))
  {
    var skipped := updated[s := Skipped];
    if updated[s] == Pending {
      assert updated[s := Failed][s] == Failed;
      if x :| x in before && before[x] == Pending && updated[x] == Failed {
        assert skipped[x] == Failed;
      }
    }
  }

  /** `apply_stage_failure`: one pass in stage order spreads the failure as far as it goes. */
  method ApplyStageFailure(g: Graph, statuses: Statuses, failed: Id)
    returns (r: Result<(Statuses, bool), SchedulerError>)
    ensures r.Ok? <==> statuses.Keys == g.stages.Keys && failed in g.stages && exists order :: Topological(g, order)
    ensures r.Ok? ==>
      && Propagated(g, statuses[failed := Failed], r.value.0)
      && (r.value.1 <==> ScanFails(g, statuses[failed := Failed], r.value.0, failed))
  {
    if statuses.Keys != g.stages.Keys {
      return Err(UnknownStatuses);
    }
    if failed !in g.stages {
      return Err(UnknownStage);
    }
    var ordered, _ := StageOrder(g);
    if ordered.Err? {
      return Err(ordered.error);
    }
    var after, scanFailed := SpreadInOrder(g, ordered.value, statuses[failed := Failed], failed);
    r := Ok((after, scanFailed));
  }

  /** The pass itself. */
  method SpreadInOrder(g: Graph, order: seq<Id>, before: Statuses, failed: Id)
    returns (updated: Statuses, scanFailed: bool)
    requires Topological(g, order) && before.Keys == g.stages.Keys && failed in g.stages
    ensures Propagated(g, before, updated)
    ensures scanFailed <==> ScanFails(g, before, updated, failed)
  {
    updated, scanFailed := before, g.stages[failed].mandatory;
    for k := 0 to |order|
      invariant SpreadUpTo(g, order, before, updated, k)
      invariant scanFailed <==> ScanFails(g, before, updated, failed)
    {
      var s := order[k];
      SpreadOneMore(g, order, before, updated, k);
      FlagOneMore(g, before, updated, failed, s);
      if updated[s] == Pending {
        if FailedMandatory(g, updated, s) {
          updated := updated[s := Failed];
          scanFailed := true;
        } else if s != g.finalization && FailedOptional(g, updated, s) {
          updated := updated[s := Skipped];
        }
      }
    }
    SpreadThroughout(g, order, before, updated);
  }
}
