/** scanner/scheduler.py: waves, restarts and whole scans. */
module SchedulerRuns {
  import opened Collections
  import opened Wrappers
  import opened Sums
  import opened Ordering
  import opened StageGraph
  import opened Scheduler

  function InitialStatuses(g: Graph): Statuses {
    map s | s in g.stages :: Pending
  }

  function WithStatus(statuses: Statuses, changed: set<Id>, status: Status): Statuses {
    map s | s in statuses :: if s in changed then status else statuses[s]
  }

  /** Nothing has failed, nothing runs: `done` is completed and the rest is pending. */
  function DoneSoFar(g: Graph, done: set<Id>): Statuses {
    WithStatus(InitialStatuses(g), done, Completed)
  }

  lemma DoneSoFarIsQuiet(g: Graph, done: set<Id>)
    ensures Quiet(g, DoneSoFar(g, done))
  {
    var statuses := DoneSoFar(g, done);
    forall s | s in g.stages ensures SpreadAt(g, statuses, statuses, s) {
      assert !FailedMandatory(g, statuses, s) && !FailedOptional(g, statuses, s);
    }
  }

  // ----- Waves -----

  lemma {:induction false} KeepIsDistinct(list: seq<Id>, chosen: set<Id>)
    requires Distinct(list)
    ensures Distinct(Keep(list, chosen))
    decreases |list|
  {
    if list != [] {
      KeepIsDistinct(list[..|list| - 1], chosen);
      NotYet(list, |list| - 1, Keep(list[..|list| - 1], chosen), chosen);
    }
  }

  /**
    * A wave: new enabled stages, each after what it depends on (finalization does not wait for
    * disabled optional stages), within the I/O limit.
    */
  ghost predicate IsWave(g: Graph, c: Config, before: set<Id>, wave: seq<Id>) {
    && wave != [] && Distinct(wave)
    && (forall s :: s in wave ==> MayFollow(g, c, before, s))
    && CostOf(g, wave) <= c.maxIoCost
  }

  ghost predicate MayFollow(g: Graph, c: Config, before: set<Id>, s: Id) {
    && s in g.stages && s in c.enabled && s !in before
    && forall d :: d in g.stages[s].dependencies ==>
         d in before || (s == g.finalization && d in g.stages && !g.stages[d].mandatory && d !in c.enabled)
  }

  ghost predicate WaveAt(g: Graph, c: Config, waves: seq<seq<Id>>, k: nat)
    requires k < |waves|
  {
    IsWave(g, c, Elements(Flatten(waves[..k])), waves[k])
  }

  ghost predicate AreWaves(g: Graph, c: Config, waves: seq<seq<Id>>) {
    forall k: nat :: k < |waves| ==> WaveAt(g, c, waves, k)
  }

  lemma OneMoreWave(g: Graph, c: Config, waves: seq<seq<Id>>, wave: seq<Id>)
    requires AreWaves(g, c, waves) && IsWave(g, c, Elements(Flatten(waves)), wave)
    ensures AreWaves(g, c, waves + [wave])
    ensures Elements(Flatten(waves + [wave])) == Elements(Flatten(waves)) + Elements(wave)
  {
    var longer := waves + [wave];
    forall k: nat | k < |longer| ensures WaveAt(g, c, longer, k) {
      if k < |waves| {
        assert WaveAt(g, c, waves, k) && longer[..k] == waves[..k];
      } else {
        assert longer[..k] == waves;
      }
    }
    FlattenSnoc(waves, wave);
  }

  lemma SatisfiedMayFollow(g: Graph, c: Config, done: set<Id>, s: Id)
    requires s in g.stages && Candidate(c, DoneSoFar(g, done), s) && Satisfied(g, c, DoneSoFar(g, done), s)
    ensures MayFollow(g, c, done, s)
  {
    var statuses := DoneSoFar(g, done);
    forall d | d in g.stages[s].dependencies
      ensures d in done || (s == g.finalization && d in g.stages && !g.stages[d].mandatory && d !in c.enabled)
    {
      assert Done(statuses, d) || (s == g.finalization && Excused(g, c, statuses, d));
    }
  }

  /** A plan made when only whole waves have completed is the next wave. */
  lemma PlanIsWave(g: Graph, c: Config, done: set<Id>, order: seq<Id>, plan: Plan)
    requires Topological(g, order) && plan.runnable != [] && c.maxIoCost >= 1
    requires PlanUpTo(g, c, DoneSoFar(g, done), Available(g, c, DoneSoFar(g, done)), order, |order|, plan)
    requires CostOf(g, plan.runnable) <= Available(g, c, DoneSoFar(g, done))
    ensures IsWave(g, c, done, plan.runnable)
  {
    var statuses := DoneSoFar(g, done);
    assert Active(g, statuses) == map[];
    assert order[..|order|] == order;
    KeepIsDistinct(order, Elements(plan.runnable));
    forall s | s in plan.runnable ensures MayFollow(g, c, done, s) {
      PlannedStage(g, c, statuses, Available(g, c, statuses), order, plan, s);
      SatisfiedMayFollow(g, c, done, s);
    }
  }

  /** An empty plan leaves no enabled stage undone. */
  lemma EmptyPlanIsTheEnd(g: Graph, c: Config, done: set<Id>, order: seq<Id>, plan: Plan)
    requires Shaped(g, c) && Topological(g, order) && plan.runnable == []
    requires PlanUpTo(g, c, DoneSoFar(g, done), Available(g, c, DoneSoFar(g, done)), order, |order|, plan)
    ensures g.stages.Keys * c.enabled <= done
  {
    DoneSoFarIsQuiet(g, done);
    forall s | s in g.stages && s in c.enabled ensures s in done {
      if s !in done {
        PlanIsNotEmpty(g, c, DoneSoFar(g, done), order, plan, s);
      }
    }
  }

  ghost predicate WavesSoFar(g: Graph, c: Config, waves: seq<seq<Id>>, done: set<Id>, statuses: Statuses) {
    && AreWaves(g, c, waves)
    && done == Elements(Flatten(waves)) && done <= g.stages.Keys * c.enabled
    && statuses == DoneSoFar(g, done)
  }

  lemma WavesGoOn(g: Graph, c: Config, waves: seq<seq<Id>>, done: set<Id>, statuses: Statuses, wave: seq<Id>)
    requires WavesSoFar(g, c, waves, done, statuses) && IsWave(g, c, done, wave)
    ensures WavesSoFar(g, c, waves + [wave], done + Elements(wave), WithStatus(statuses, Elements(wave), Completed))
    ensures g.stages.Keys - (done + Elements(wave)) < g.stages.Keys - done
  {
    OneMoreWave(g, c, waves, wave);
    assert wave[0] in wave && wave[0] in g.stages.Keys - done;
  }

  /** `execution_waves`: every stage that is enabled, once, in waves. */
  method ExecutionWaves(g: Graph, c: Config) returns (r: Result<seq<seq<Id>>, SchedulerError>)
    ensures r.Ok? <==> c.maxIoCost >= 1 && exists order :: Topological(g, order)
    ensures r.Ok? ==> AreWaves(g, c, r.value)
    ensures r.Ok? && Shaped(g, c) ==> Elements(Flatten(r.value)) == g.stages.Keys * c.enabled
  {
    var statuses := InitialStatuses(g);
    var waves: seq<seq<Id>> := [];
    ghost var done: set<Id> := {};
    while true
      invariant WavesSoFar(g, c, waves, done, statuses)
      invariant waves != [] ==> c.maxIoCost >= 1 && exists order :: Topological(g, order)
      decreases g.stages.Keys - done
    {
      var planned, order := RunnableStages(g, c, statuses);
      if planned.Err? {
        return Err(planned.error);
      }
      var plan := planned.value;
      if plan.runnable == [] {
        if Shaped(g, c) {
          EmptyPlanIsTheEnd(g, c, done, order, plan);
        }
        return Ok(waves);
      }
      PlanIsWave(g, c, done, order, plan);
      WavesGoOn(g, c, waves, done, statuses, plan.runnable);
      waves := waves + [plan.runnable];
      statuses := WithStatus(statuses, Elements(plan.runnable), Completed);
      done := done + Elements(plan.runnable);
    }
  }

  // ----- Restart -----

  /** A stage that completed must have been allowed to start. */
  predicate CouldComplete(g: Graph, c: Config, completed: set<Id>, s: Id)
    requires s in g.stages
  {
    forall d :: d in g.stages[s].dependencies ==> d in completed || d !in c.enabled
  }

  /** Every stage that completed could have. */
  predicate Restartable(g: Graph, c: Config, completed: set<Id>)
    requires completed <= g.stages.Keys
  {
    forall s :: s in completed ==> CouldComplete(g, c, completed, s)
  }

  /** A plan for these statuses, in some order of the stages. */
  ghost predicate IsPlanFor(g: Graph, c: Config, statuses: Statuses, plan: Plan) {
    exists order :: Topological(g, order) && PlanUpTo(g, c, statuses, Available(g, c, statuses), order, |order|, plan)
  }

  /** `restart_plan`: never reruns what completed, and always finds something to run. */
  method RestartPlan(g: Graph, c: Config, completed: set<Id>) returns (r: Result<Plan, SchedulerError>)
    ensures r.Ok? <==>
      && c.maxIoCost >= 1 && completed <= g.stages.Keys && Restartable(g, c, completed)
      && exists order :: Topological(g, order)
    ensures r == Err(IncompleteDependencies) <==>
      c.maxIoCost >= 1 && completed <= g.stages.Keys && !Restartable(g, c, completed)
    ensures r.Ok? ==> IsPlanFor(g, c, DoneSoFar(g, completed), r.value)
    ensures r.Ok? && r.value.runnable != [] ==> IsWave(g, c, completed, r.value.runnable)
    ensures r.Ok? && Shaped(g, c) && r.value.runnable == [] ==> g.stages.Keys * c.enabled <= completed
  {
    if c.maxIoCost < 1 {
      return Err(InvalidConfig);
    }
    if !(completed <= g.stages.Keys) {
      return Err(UnknownStage);
    }
    if !Restartable(g, c, completed) {
      return Err(IncompleteDependencies);
    }
    var statuses := DoneSoFar(g, completed);
    var planned, order := RunnableStages(g, c, statuses);
    if planned.Ok? {
      if planned.value.runnable != [] {
        PlanIsWave(g, c, completed, order, planned.value);
      } else if Shaped(g, c) {
        EmptyPlanIsTheEnd(g, c, completed, order, planned.value);
      }
    }
    r := planned;
  }

  // ----- Whole scans, without an operator's pause -----

  datatype Scan = Scan(statuses: Statuses, failed: bool)

  ghost predicate StartStep(g: Graph, c: Config, a: Scan, s: Id, b: Scan) {
    && s in g.stages && Candidate(c, a.statuses, s) && Satisfied(g, c, a.statuses, s)
    && Total(Active(g, a.statuses)) + g.stages[s].ioCost <= c.maxIoCost
    && b == a.(statuses := a.statuses[s := Running])
  }

  ghost predicate CompleteStep(g: Graph, a: Scan, s: Id, b: Scan) {
    && s in g.stages && s in a.statuses && a.statuses[s] == Running
    && b == a.(statuses := a.statuses[s := Completed])
  }

  ghost predicate FailStep(g: Graph, a: Scan, s: Id, b: Scan) {
    && s in g.stages && s in a.statuses && a.statuses[s] == Running
    && Propagated(g, a.statuses[s := Failed], b.statuses)
    && b.failed == (a.failed || ScanFails(g, a.statuses[s := Failed], b.statuses, s))
  }

  ghost predicate Step(g: Graph, c: Config, a: Scan, s: Id, b: Scan) {
    StartStep(g, c, a, s, b) || CompleteStep(g, a, s, b) || FailStep(g, a, s, b)
  }

  /** What every scan keeps. */
  ghost predicate Sound(g: Graph, c: Config, a: Scan) {
    && Propagated(g, a.statuses, a.statuses)
    && (forall s :: s in g.stages ==> SoundAt(g, c, a.statuses, s))
    && (a.failed <==> MandatoryFailed(g, a.statuses))
    && Total(Active(g, a.statuses)) <= c.maxIoCost
  }

  /** A stage runs or has completed only if it is enabled and what it depends on is done with. */
  ghost predicate SoundAt(g: Graph, c: Config, statuses: Statuses, s: Id)
    requires s in g.stages && s in statuses
  {
    && statuses[s] != Paused
    && (statuses[s] in {Running, Completed} ==> s in c.enabled && Satisfied(g, c, statuses, s))
    && (s == g.finalization ==> statuses[s] != Skipped)
  }

  ghost predicate MandatoryFailed(g: Graph, statuses: Statuses) {
    exists s :: s in g.stages && s in statuses && statuses[s] == Failed && g.stages[s].mandatory
  }

  /** Only pending stages change when a failure spreads. */
  lemma OnlyPendingChange(g: Graph, before: Statuses, after: Statuses, s: Id)
    requires Propagated(g, before, after) && s in g.stages && before[s] != Pending
    ensures after[s] == before[s]
  {
    assert SpreadAt(g, before, after, s);
  }

  /** Stages that are done with stay so. */
  ghost predicate KeepsDone(p: Statuses, q: Statuses) {
    forall d :: d in p && p[d] in {Completed, Skipped, Failed} ==> d in q && q[d] == p[d]
  }

  lemma SatisfiedStays(g: Graph, c: Config, p: Statuses, q: Statuses, s: Id)
    requires s in g.stages && KeepsDone(p, q) && Satisfied(g, c, p, s)
    ensures Satisfied(g, c, q, s)
  {
    forall d | d in g.stages[s].dependencies
      ensures Done(q, d) || (s == g.finalization && Excused(g, c, q, d))
    {
      assert Done(p, d) || (s == g.finalization && Excused(g, c, p, d));
    }
  }

  lemma StartKeepsSound(g: Graph, c: Config, a: Scan, s: Id, b: Scan)
    requires Sound(g, c, a) && StartStep(g, c, a, s, b)
    ensures Sound(g, c, b)
  {
    forall x | x in g.stages ensures SpreadAt(g, b.statuses, b.statuses, x) {
      assert SpreadAt(g, a.statuses, a.statuses, x);
      SameFailures(g, a.statuses, b.statuses, x);
    }
    forall x | x in g.stages ensures SoundAt(g, c, b.statuses, x) {
      assert SoundAt(g, c, a.statuses, x);
      if x == s || a.statuses[x] in {Running, Completed} {
        SatisfiedStays(g, c, a.statuses, b.statuses, x);
      }
    }
    SameMandatoryFailures(g, a.statuses, b.statuses);
    StartAddsCost(g, a.statuses, s);
  }

  ghost predicate SameFailed(g: Graph, p: Statuses, q: Statuses) {
    p.Keys == q.Keys && forall d :: d in p ==> (p[d] == Failed <==> q[d] == Failed)
  }

  lemma SameFailures(g: Graph, p: Statuses, q: Statuses, s: Id)
    requires s in g.stages && SameFailed(g, p, q)
    ensures FailedMandatory(g, p, s) == FailedMandatory(g, q, s) && FailedOptional(g, p, s) == FailedOptional(g, q, s)
  {
  }

  lemma SameMandatoryFailures(g: Graph, p: Statuses, q: Statuses)
    requires SameFailed(g, p, q)
    ensures MandatoryFailed(g, p) == MandatoryFailed(g, q)
  {
  }

  lemma CompleteKeepsSound(g: Graph, c: Config, a: Scan, s: Id, b: Scan)
    requires Sound(g, c, a) && CompleteStep(g, a, s, b)
    ensures Sound(g, c, b)
  {
    forall x | x in g.stages ensures SpreadAt(g, b.statuses, b.statuses, x) {
      assert SpreadAt(g, a.statuses, a.statuses, x);
      SameFailures(g, a.statuses, b.statuses, x);
    }
    forall x | x in g.stages ensures SoundAt(g, c, b.statuses, x) {
      assert SoundAt(g, c, a.statuses, x);
      if a.statuses[x] in {Running, Completed} {
        SatisfiedStays(g, c, a.statuses, b.statuses, x);
      }
    }
    SameMandatoryFailures(g, a.statuses, b.statuses);
    StopLowersCost(g, a.statuses, b.statuses, s);
  }

  lemma StopLowersCost(g: Graph, p: Statuses, q: Statuses, s: Id)
    requires s in g.stages && s in p && p[s] == Running && q.Keys == p.Keys
    requires forall x :: x in p ==> (q[x] == Running <==> p[x] == Running && x != s)
    ensures Total(Active(g, q)) <= Total(Active(g, p))
  {
    TotalWithout(Active(g, p), s);
    assert Active(g, q) == Active(g, p) - {s};
  }

  lemma FailKeepsSound(g: Graph, c: Config, a: Scan, s: Id, b: Scan)
    requires Sound(g, c, a) && FailStep(g, a, s, b)
    ensures Sound(g, c, b)
  {
    FailureKeepsDone(g, a.statuses, s, b.statuses);
    forall x | x in g.stages ensures SpreadAt(g, b.statuses, b.statuses, x) {
      assert SpreadAt(g, a.statuses[s := Failed], b.statuses, x);
    }
    forall x | x in g.stages ensures SoundAt(g, c, b.statuses, x) {
      assert SpreadAt(g, a.statuses[s := Failed], b.statuses, x) && SoundAt(g, c, a.statuses, x);
      if a.statuses[x] in {Running, Completed} {
        SatisfiedStays(g, c, a.statuses, b.statuses, x);
      }
    }
    FlagStaysRight(g, a, s, b);
    StopLowersCost(g, a.statuses, b.statuses, s);
  }

  /** Only pending stages, and the one that failed, change. */
  lemma FailureKeepsDone(g: Graph, before: Statuses, failed: Id, after: Statuses)
    requires failed in before && before[failed] == Running && Propagated(g, before[failed := Failed], after)
    ensures KeepsDone(before, after)
    ensures forall x :: x in before ==> (after[x] == Running <==> before[x] == Running && x != failed)
  {
    forall x | x in before
      ensures before[x] != Pending && x != failed ==> after[x] == before[x]
      ensures x == failed || before[x] == Pending ==> after[x] != Running
    {
      assert SpreadAt(g, before[failed := Failed], after, x);
    }
  }

  lemma FlagStaysRight(g: Graph, a: Scan, s: Id, b: Scan)
    requires a.failed <==> MandatoryFailed(g, a.statuses)
    requires FailStep(g, a, s, b)
    ensures b.failed <==> MandatoryFailed(g, b.statuses)
  {
    var before := a.statuses[s := Failed];
    assert SpreadAt(g, before, b.statuses, s);
    if a.failed {
      var m :| m in g.stages && m in a.statuses && a.statuses[m] == Failed && g.stages[m].mandatory;
      OnlyPendingChange(g, before, b.statuses, m);
    } else if g.stages[s].mandatory {
      assert b.statuses[s] == Failed;
    } else if b.failed {
      var x :| x in before && before[x] == Pending && b.statuses[x] == Failed;
      assert SpreadAt(g, before, b.statuses, x);
    }
  }

  lemma StepKeepsSound(g: Graph, c: Config, a: Scan, s: Id, b: Scan)
    requires Sound(g, c, a) && Step(g, c, a, s, b)
    ensures Sound(g, c, b)
  {
    if StartStep(g, c, a, s, b) {
      StartKeepsSound(g, c, a, s, b);
    } else if CompleteStep(g, a, s, b) {
      CompleteKeepsSound(g, c, a, s, b);
    } else {
      FailKeepsSound(g, c, a, s, b);
    }
  }

  /** A scan from its start: the stages that acted, and the states between them. */
  ghost predicate IsRun(g: Graph, c: Config, states: seq<Scan>, acts: seq<Id>) {
    && |states| == |acts| + 1
    && states[0] == Scan(InitialStatuses(g), false)
    && forall i: nat :: i < |acts| ==> ActAt(g, c, states, acts, i)
  }

  ghost predicate ActAt(g: Graph, c: Config, states: seq<Scan>, acts: seq<Id>, i: nat)
    requires |states| == |acts| + 1 && i < |acts|
  {
    Step(g, c, states[i], acts[i], states[i + 1])
  }

  lemma InitialIsSound(g: Graph, c: Config)
    requires c.maxIoCost >= 1
    ensures Sound(g, c, Scan(InitialStatuses(g), false))
  {
    assert InitialStatuses(g) == DoneSoFar(g, {});
    DoneSoFarIsQuiet(g, {});
    assert Active(g, InitialStatuses(g)) == map[];
  }

  /**
    * Safety over whole scans: stages run only when enabled and after what they depend on, within
    * the I/O limit, no failure is left unspread, and the scan counts as failed if and only if a
    * mandatory stage failed.
    */
  lemma {:induction false} RunsAreSound(g: Graph, c: Config, states: seq<Scan>, acts: seq<Id>, k: nat)
    requires c.maxIoCost >= 1 && IsRun(g, c, states, acts) && k < |states|
    ensures Sound(g, c, states[k])
  {
    InitialIsSound(g, c);
    for i := 0 to k
      invariant Sound(g, c, states[i])
    {
      assert ActAt(g, c, states, acts, i);
      StepKeepsSound(g, c, states[i], acts[i], states[i + 1]);
    }
  }

  // ----- Which scans can be restarted -----

  /** A stage is only skipped because an optional stage that it depends on failed, and finalization never is. */
  ghost predicate SkippedForCause(g: Graph, statuses: Statuses) {
    forall s :: s in g.stages && s in statuses && statuses[s] == Skipped ==>
      s != g.finalization && FailedOptional(g, statuses, s)
  }

  ghost predicate FailuresStay(p: Statuses, q: Statuses) {
    forall d :: d in p && p[d] == Failed ==> d in q && q[d] == Failed
  }

  lemma StepKeepsCauses(g: Graph, c: Config, a: Scan, s: Id, b: Scan)
    requires a.statuses.Keys == g.stages.Keys && SkippedForCause(g, a.statuses) && Step(g, c, a, s, b)
    ensures SkippedForCause(g, b.statuses)
  {
    if FailStep(g, a, s, b) {
      FailureKeepsDone(g, a.statuses, s, b.statuses);
    }
    forall x | x in g.stages && x in b.statuses && b.statuses[x] == Skipped
      ensures x != g.finalization && FailedOptional(g, b.statuses, x)
    {
      if a.statuses[x] == Skipped {
        CausesStay(g, a.statuses, b.statuses, x);
      } else {
        assert SpreadAt(g, a.statuses[s := Failed], b.statuses, x);
      }
    }
  }

  lemma CausesStay(g: Graph, p: Statuses, q: Statuses, s: Id)
    requires s in g.stages && FailuresStay(p, q) && FailedOptional(g, p, s)
    ensures FailedOptional(g, q, s)
  {
    var d :| d in g.stages[s].dependencies && d in g.stages && d in p && p[d] == Failed && !g.stages[d].mandatory;
    assert q[d] == Failed;
  }

  lemma {:induction false} RunsSkipForCause(g: Graph, c: Config, states: seq<Scan>, acts: seq<Id>, k: nat)
    requires IsRun(g, c, states, acts) && k < |states|
    ensures states[k].statuses.Keys == g.stages.Keys && SkippedForCause(g, states[k].statuses)
  {
    for i := 0 to k
      invariant states[i].statuses.Keys == g.stages.Keys && SkippedForCause(g, states[i].statuses)
    {
      assert ActAt(g, c, states, acts, i);
      StepsDoWork(g, c, states[i], acts[i], states[i + 1]);
      StepKeepsCauses(g, c, states[i], acts[i], states[i + 1]);
    }
  }

  /** A completed stage depends on an enabled one that failed or was skipped. */
  ghost predicate CompletedBeyondFailure(g: Graph, c: Config, statuses: Statuses) {
    exists s, d :: s in g.stages && s in statuses && statuses[s] == Completed && d in g.stages[s].dependencies
                   && d in c.enabled && d in statuses && statuses[d] in {Failed, Skipped}
  }

  /** A scan can be restarted exactly if no stage completed after an enabled stage that failed or was skipped. */
  lemma ScanIsRestartableIff(g: Graph, c: Config, states: seq<Scan>, acts: seq<Id>, k: nat)
    requires c.maxIoCost >= 1 && IsRun(g, c, states, acts) && k < |states|
    ensures WithStatusOf(states[k].statuses, Completed) <= g.stages.Keys
    ensures Restartable(g, c, WithStatusOf(states[k].statuses, Completed)) <==>
      !CompletedBeyondFailure(g, c, states[k].statuses)
  {
    RunsAreSound(g, c, states, acts, k);
    var statuses := states[k].statuses;
    var completed := WithStatusOf(statuses, Completed);
    if !CompletedBeyondFailure(g, c, statuses) {
      forall s | s in completed ensures CouldComplete(g, c, completed, s) {
        assert SoundAt(g, c, statuses, s);
        forall d | d in g.stages[s].dependencies ensures d in completed || d !in c.enabled {
          assert Done(statuses, d) || (s == g.finalization && Excused(g, c, statuses, d));
        }
      }
    }
    if CompletedBeyondFailure(g, c, statuses) {
      var s, d :| s in g.stages && statuses[s] == Completed && d in g.stages[s].dependencies && d in c.enabled
                  && d in statuses && statuses[d] in {Failed, Skipped};
      assert !CouldComplete(g, c, completed, s);
    }
  }

  ghost predicate CanEndAs(g: Graph, c: Config, end: Scan) {
    exists states: seq<Scan>, acts :: IsRun(g, c, states, acts) && states[|acts|] == end
  }

  /** A scan that did what it could after an optional stage failed, and that no restart accepts. */
  method FinishedScanIsRefused() returns (r: Result<Plan, SchedulerError>)
    ensures r == Err(IncompleteDependencies)
    ensures Shaped(SMALL, Config(1, {0, 1}))
    ensures CanEndAs(SMALL, Config(1, {0, 1}), Small(Failed, Completed))
  {
    SmallIsShaped();
    SmallScan();
    r := RestartPlan(SMALL, Config(1, {0, 1}), {1});
    assert !CouldComplete(SMALL, Config(1, {0, 1}), {1}, 1);
  }

  /** An optional stage, and the finalization that depends on it. */
  const SMALL: Graph := Graph(map[0 := Stage({}, 1, false), 1 := Stage({0}, 1, true)], 1)

  lemma SmallIsShaped()
    ensures Shaped(SMALL, Config(1, {0, 1}))
  {
    var order := [0, 1];
    assert DependenciesBefore(SMALL, order, 0);
    assert order[..1] == [0] && DependenciesBefore(SMALL, order, 1);
    assert Topological(SMALL, order);
  }

  function Small(first: Status, last: Status): Scan {
    Scan(map[0 := first, 1 := last], false)
  }

  lemma SmallScan()
    ensures CanEndAs(SMALL, Config(1, {0, 1}), Small(Failed, Completed))
  {
    var c := Config(1, {0, 1});
    var states, acts :=
      [Small(Pending, Pending), Small(Running, Pending), Small(Failed, Pending), Small(Failed, Running),
        Small(Failed, Completed)],
      [0, 0, 1, 1];
    assert InitialStatuses(SMALL) == map[0 := Pending, 1 := Pending];
    forall k: nat | k < 4 ensures ActAt(SMALL, c, states, acts, k) {
      SmallStep(c, states, acts, k);
    }
    assert IsRun(SMALL, c, states, acts) && states[|acts|] == Small(Failed, Completed);
  }

  lemma SmallStep(c: Config, states: seq<Scan>, acts: seq<Id>, k: nat)
    requires c == Config(1, {0, 1}) && acts == [0, 0, 1, 1] && k < 4
    requires states == [Small(Pending, Pending), Small(Running, Pending), Small(Failed, Pending),
      Small(Failed, Running), Small(Failed, Completed)]
    ensures ActAt(SMALL, c, states, acts, k)
  {
    if k == 0 {
      SmallStarts(c);
    } else if k == 1 {
      SmallFails();
    } else {
      SmallFinishes(c);
    }
  }

  lemma SmallStarts(c: Config)
    requires c == Config(1, {0, 1})
    ensures StartStep(SMALL, c, Small(Pending, Pending), 0, Small(Running, Pending))
  {
    assert Active(SMALL, Small(Pending, Pending).statuses) == map[];
    assert Small(Pending, Pending).statuses[0 := Running] == Small(Running, Pending).statuses;
  }

  lemma SmallFails()
    ensures FailStep(SMALL, Small(Running, Pending), 0, Small(Failed, Pending))
  {
    var before, after := Small(Running, Pending).statuses[0 := Failed], Small(Failed, Pending).statuses;
    assert before == after;
    assert !FailedMandatory(SMALL, after, 1);
    assert SpreadAt(SMALL, before, after, 0) && SpreadAt(SMALL, before, after, 1);
    assert Propagated(SMALL, before, after);
  }

  lemma SmallFinishes(c: Config)
    requires c == Config(1, {0, 1})
    ensures StartStep(SMALL, c, Small(Failed, Pending), 1, Small(Failed, Running))
    ensures CompleteStep(SMALL, Small(Failed, Running), 1, Small(Failed, Completed))
  {
    var statuses := Small(Failed, Pending).statuses;
    assert Active(SMALL, statuses) == map[];
    assert Excused(SMALL, c, statuses, 0);
    assert statuses[1 := Running] == Small(Failed, Running).statuses;
    assert Small(Failed, Running).statuses[1 := Completed] == Small(Failed, Completed).statuses;
  }

  // ----- Scans end -----

  function WithStatusOf(statuses: Statuses, status: Status): set<Id> {
    set s | s in statuses && statuses[s] == status
  }

  /** Each stage has to start and to stop. */
  function Work(statuses: Statuses): nat {
    2 * |WithStatusOf(statuses, Pending)| + |WithStatusOf(statuses, Running)|
  }

  lemma NothingBecomesPending(g: Graph, before: Statuses, failed: Id, after: Statuses)
    requires failed in before && Propagated(g, before[failed := Failed], after)
    ensures WithStatusOf(after, Pending) <= WithStatusOf(before, Pending)
  {
    forall x | x in after && after[x] == Pending ensures x in before && before[x] == Pending {
      assert SpreadAt(g, before[failed := Failed], after, x);
    }
  }

  lemma StepsDoWork(g: Graph, c: Config, a: Scan, s: Id, b: Scan)
    requires a.statuses.Keys == g.stages.Keys && Step(g, c, a, s, b)
    ensures b.statuses.Keys == g.stages.Keys && Work(b.statuses) < Work(a.statuses)
  {
    var pending, running := WithStatusOf(a.statuses, Pending), WithStatusOf(a.statuses, Running);
    var pending', running' := WithStatusOf(b.statuses, Pending), WithStatusOf(b.statuses, Running);
    if StartStep(g, c, a, s, b) {
      assert pending' == pending - {s} && running' == running + {s};
    } else {
      if FailStep(g, a, s, b) {
        FailureKeepsDone(g, a.statuses, s, b.statuses);
        NothingBecomesPending(g, a.statuses, s, b.statuses);
      }
      assert running' == running - {s};
      SubsetIsNoLarger(pending', pending);
    }
  }

  /** Scans end: no scan takes more than two steps a stage. */
  lemma {:induction false} RunsAreBounded(g: Graph, c: Config, states: seq<Scan>, acts: seq<Id>)
    requires IsRun(g, c, states, acts)
    ensures |acts| <= 2 * |g.stages|
  {
    var initial := InitialStatuses(g);
    assert WithStatusOf(initial, Pending) == g.stages.Keys && WithStatusOf(initial, Running) == {};
    for i := 0 to |acts|
      invariant states[i].statuses.Keys == g.stages.Keys
      invariant Work(states[i].statuses) + i <= 2 * |g.stages|
    {
      assert ActAt(g, c, states, acts, i);
      StepsDoWork(g, c, states[i], acts[i], states[i + 1]);
    }
  }

  // ----- Scans do not get stuck -----

  /** What an enabled stage ends as. */
  ghost predicate Ended(c: Config, statuses: Statuses) {
    forall s :: s in statuses && s in c.enabled ==> statuses[s] in {Completed, Failed, Skipped}
  }

  /** A scan that has not ended can go on; `FailStep` is not needed for that. */
  lemma ScansGoOn(g: Graph, c: Config, a: Scan) returns (s: Id, b: Scan)
    requires Shaped(g, c) && Sound(g, c, a) && !Ended(c, a.statuses)
    ensures StartStep(g, c, a, s, b) || CompleteStep(g, a, s, b)
  {
    if r :| r in g.stages && a.statuses[r] == Running {
      s, b := r, a.(statuses := a.statuses[r := Completed]);
    } else {
      s := IdleScanHasStage(g, c, a);
      assert Active(g, a.statuses) == map[];
      b := a.(statuses := a.statuses[s := Running]);
    }
  }

  lemma IdleScanHasStage(g: Graph, c: Config, a: Scan) returns (s: Id)
    requires Shaped(g, c) && Sound(g, c, a) && !Ended(c, a.statuses)
    requires forall r :: r in g.stages ==> a.statuses[r] != Running
    ensures s in g.stages && Candidate(c, a.statuses, s) && Satisfied(g, c, a.statuses, s)
  {
    var x :| x in a.statuses && x in c.enabled && a.statuses[x] !in {Completed, Failed, Skipped};
    forall y | y in g.stages ensures a.statuses[y] != Paused {
      assert SoundAt(g, c, a.statuses, y);
    }
    var order :| Topological(g, order);
    assert x in order;
    var k: nat :| k < |order| && order[k] == x;
    var first := FirstCandidate(c, a.statuses, order, k);
    FirstPendingIsSatisfied(g, c, a.statuses, order, first);
    s := order[first];
    assert s in order;
  }

  /**
    * When a scan can take no further step, every enabled stage has completed, failed or been
    * skipped, and finalization has completed unless the scan failed.
    */
  lemma FinishedScansHaveEnded(g: Graph, c: Config, states: seq<Scan>, acts: seq<Id>)
    requires Shaped(g, c) && IsRun(g, c, states, acts)
    requires forall s, b :: !Step(g, c, states[|acts|], s, b)
    ensures states[|acts|].statuses.Keys == g.stages.Keys
    ensures Ended(c, states[|acts|].statuses)
    ensures states[|acts|].failed || states[|acts|].statuses[g.finalization] == Completed
  {
    var last := states[|acts|];
    RunsAreSound(g, c, states, acts, |acts|);
    if !Ended(c, last.statuses) {
      var s, b := ScansGoOn(g, c, last);
      assert Step(g, c, last, s, b);
    }
    assert SoundAt(g, c, last.statuses, g.finalization);
  }

  /** All stages of a plan can be started, one after the other. */
  lemma {:induction false} PlanCanStart(g: Graph, c: Config, a: Scan, order: seq<Id>, plan: Plan, k: nat)
    requires Sound(g, c, a) && Topological(g, order) && k < |plan.runnable|
    requires PlanUpTo(g, c, a.statuses, Available(g, c, a.statuses), order, |order|, plan)
    requires CostOf(g, plan.runnable) <= Available(g, c, a.statuses)
    ensures StartStep(g, c, Started(a, plan.runnable[..k]), plan.runnable[k], Started(a, plan.runnable[..k + 1]))
  {
    var s, list := plan.runnable[k], plan.runnable;
    assert order[..|order|] == order;
    KeepIsDistinct(order, Elements(list));
    forall x | x in list ensures x in g.stages && Candidate(c, a.statuses, x) && Satisfied(g, c, a.statuses, x) {
      PlannedStage(g, c, a.statuses, Available(g, c, a.statuses), order, plan, x);
    }
    assert s in list;
    PrefixIsStartable(g, c, a, list, k);
    PrefixIsStartable(g, c, a, list, k + 1);
    StartedCost(g, c, a, list[..k]);
    StartedCost(g, c, a, list[..k + 1]);
    CostOfPrefix(g, list, k + 1);
    NextCanStart(g, c, a, list, k);
  }

  lemma NextCanStart(g: Graph, c: Config, a: Scan, list: seq<Id>, k: nat)
    requires a.statuses.Keys == g.stages.Keys && k < |list| && Distinct(list)
    requires forall x :: x in list ==> x in g.stages && Candidate(c, a.statuses, x)
    requires Satisfied(g, c, a.statuses, list[k])
    requires Total(Active(g, Started(a, list[..k + 1]).statuses)) <= c.maxIoCost
    ensures StartStep(g, c, Started(a, list[..k]), list[k], Started(a, list[..k + 1]))
  {
    assert list[k] in list;
    StartOne(a, list, k);
    StartAddsCost(g, Started(a, list[..k]).statuses, list[k]);
    SatisfiedStays(g, c, a.statuses, Started(a, list[..k]).statuses, list[k]);
  }

  lemma StartOne(a: Scan, list: seq<Id>, k: nat)
    requires k < |list| && Distinct(list) && forall x :: x in list ==> x in a.statuses
    ensures Started(a, list[..k + 1]).statuses == Started(a, list[..k]).statuses[list[k] := Running]
    ensures Started(a, list[..k]).statuses[list[k]] == a.statuses[list[k]]
  {
    assert list[..k + 1] == list[..k] + [list[k]];
    assert list[k] in list && list[k] !in list[..k];
  }

  lemma StartAddsCost(g: Graph, statuses: Statuses, s: Id)
    requires s in g.stages && s in statuses && statuses[s] != Running
    ensures Total(Active(g, statuses[s := Running])) == Total(Active(g, statuses)) + g.stages[s].ioCost
  {
    TotalWith(Active(g, statuses), s, g.stages[s].ioCost);
    assert Active(g, statuses[s := Running]) == Active(g, statuses)[s := g.stages[s].ioCost];
  }

  function Started(a: Scan, list: seq<Id>): Scan {
    a.(statuses := WithStatus(a.statuses, Elements(list), Running))
  }

  /** Different stages, all of them waiting to run. */
  ghost predicate Startable(g: Graph, c: Config, a: Scan, list: seq<Id>) {
    a.statuses.Keys == g.stages.Keys && Distinct(list) && forall x :: x in list ==>
      x in g.stages && Candidate(c, a.statuses, x)
  }

  lemma {:induction false} StartedCost(g: Graph, c: Config, a: Scan, list: seq<Id>)
    requires Startable(g, c, a, list)
    ensures Total(Active(g, Started(a, list).statuses)) == Total(Active(g, a.statuses)) + CostOf(g, list)
    decreases |list|
  {
    if list == [] {
      assert Started(a, list).statuses == a.statuses;
    } else {
      var k := |list| - 1;
      PrefixIsStartable(g, c, a, list, k);
      StartedCost(g, c, a, list[..k]);
      StartedCostOneMore(g, c, a, list, k);
      assert list[..k + 1] == list;
    }
  }

  lemma PrefixIsStartable(g: Graph, c: Config, a: Scan, list: seq<Id>, k: nat)
    requires Startable(g, c, a, list) && k <= |list|
    ensures Startable(g, c, a, list[..k])
  {
    forall x | x in list[..k] ensures x in list {
    }
  }

  lemma StartedCostOneMore(g: Graph, c: Config, a: Scan, list: seq<Id>, k: nat)
    requires Startable(g, c, a, list) && k < |list|
    ensures Total(Active(g, Started(a, list[..k + 1]).statuses)) - CostOf(g, list[..k + 1]) ==
      Total(Active(g, Started(a, list[..k]).statuses)) - CostOf(g, list[..k])
  {
    assert list[k] in list;
    assert list[..k + 1] == list[..k] + [list[k]];
    CostLast(g, list[..k], list[k]);
    StartOne(a, list, k);
    StartAddsCost(g, Started(a, list[..k]).statuses, list[k]);
  }

  lemma {:induction false} CostOfPrefix(g: Graph, list: seq<Id>, k: nat)
    requires k <= |list| && forall x :: x in list ==> x in g.stages
    ensures CostOf(g, list[..k]) <= CostOf(g, list)
    decreases |list| - k
  {
    if k == |list| {
      assert list[..k] == list;
    } else {
      CostOfPrefix(g, list, k + 1);
      assert list[..k + 1][..k] == list[..k];
    }
  }

  // ----- The product's own stages -----

  /** An enabled optional stage has failed or was skipped. */
  ghost predicate OptionalLost(c: Config, statuses: Statuses) {
    exists d :: d in {ARTIFACTS, ENRICHMENT, CARVING} && d in c.enabled && d in statuses
      && statuses[d] in {Failed, Skipped}
  }

  const ARTIFACTS: Id := 0
  const CARVING: Id := 1
  const ENRICHMENT: Id := 2
  const ENUMERATION: Id := 3
  const FINALIZATION: Id := 4
  const VALIDATION: Id := 5
  const VOLUMES: Id := 6

  /** `STAGES` */
  const PRODUCT: Graph := Graph(
    map[
      VALIDATION := Stage({}, 1, true),
      VOLUMES := Stage({VALIDATION}, 1, true),
      ENUMERATION := Stage({VOLUMES}, 1, true),
      ARTIFACTS := Stage({ENUMERATION}, 1, false),
      ENRICHMENT := Stage({ARTIFACTS}, 1, false),
      CARVING := Stage({VALIDATION, VOLUMES, ENUMERATION}, 1, false),
      FINALIZATION := Stage({ENUMERATION, ARTIFACTS, ENRICHMENT, CARVING}, 1, true)],
    FINALIZATION)

  /** `SchedulerConfig` */
  function ProductConfig(maxIoCost: int, enableEnrichment: bool, enableCarving: bool): Config {
    Config(maxIoCost,
      PRODUCT.stages.Keys - (if enableEnrichment then {} else {ENRICHMENT}) - (if enableCarving then {} else {CARVING}))
  }

  const PRODUCT_ORDER: seq<Id> := [VALIDATION, VOLUMES, ENUMERATION, ARTIFACTS, CARVING, ENRICHMENT, FINALIZATION]

  /** Every stage costs one unit; the optional ones are artifacts, carving and enrichment. */
  lemma ProductStage(s: Id)
    requires s in PRODUCT.stages
    ensures PRODUCT.stages[s].ioCost == 1
    ensures PRODUCT.stages[s].mandatory <==> s !in {ARTIFACTS, CARVING, ENRICHMENT}
    ensures s != FINALIZATION ==> PRODUCT.stages[s].dependencies <= {VALIDATION, VOLUMES, ENUMERATION, ARTIFACTS}
  {
  }

  lemma ProductIsOrdered()
    ensures Topological(PRODUCT, PRODUCT_ORDER)
  {
    forall s ensures s in PRODUCT_ORDER <==> s in PRODUCT.stages {
    }
    forall i: nat | i < |PRODUCT_ORDER| ensures DependenciesBefore(PRODUCT, PRODUCT_ORDER, i) {
      ProductIsOrderedAt(i);
    }
  }

  lemma ProductIsOrderedAt(i: nat)
    requires i < 7
    ensures DependenciesBefore(PRODUCT, PRODUCT_ORDER, i)
  {
    forall d | d in PRODUCT.stages[PRODUCT_ORDER[i]].dependencies ensures d in PRODUCT_ORDER[..i] {
      assert PRODUCT_ORDER[0] == VALIDATION && PRODUCT_ORDER[1] == VOLUMES && PRODUCT_ORDER[2] == ENUMERATION;
      assert PRODUCT_ORDER[3] == ARTIFACTS && PRODUCT_ORDER[4] == CARVING && PRODUCT_ORDER[5] == ENRICHMENT;
    }
  }

  /** So everything above holds of the product's scans, whatever is enabled. */
  lemma ProductIsShaped(maxIoCost: int, enableEnrichment: bool, enableCarving: bool)
    requires maxIoCost >= 1
    ensures Shaped(PRODUCT, ProductConfig(maxIoCost, enableEnrichment, enableCarving))
  {
    var c := ProductConfig(maxIoCost, enableEnrichment, enableCarving);
    ProductIsOrdered();
    EnabledInProduct(maxIoCost, enableEnrichment, enableCarving);
    ProductStage(FINALIZATION);
    forall s | s in PRODUCT.stages
      ensures PRODUCT.stages[s].ioCost <= c.maxIoCost
      ensures PRODUCT.stages[s].mandatory ==> s in c.enabled
      ensures s != FINALIZATION ==> PRODUCT.stages[s].dependencies <= c.enabled
    {
      ProductStage(s);
    }
  }

  lemma EnabledInProduct(maxIoCost: int, enableEnrichment: bool, enableCarving: bool)
    ensures var enabled := ProductConfig(maxIoCost, enableEnrichment, enableCarving).enabled;
      && {VALIDATION, VOLUMES, ENUMERATION, ARTIFACTS, FINALIZATION} <= enabled
      && (forall s :: s in PRODUCT.stages && s !in {CARVING, ENRICHMENT} ==> s in enabled)
      && enabled <= PRODUCT.stages.Keys
      && (CARVING in enabled <==> enableCarving) && (ENRICHMENT in enabled <==> enableEnrichment)
  {
  }

  /** A scan of the product is refused a restart exactly when it was finalized without an enabled optional stage. */
  lemma ProductIsRestartableIff(c: Config, states: seq<Scan>, acts: seq<Id>, k: nat)
    requires c.maxIoCost >= 1 && IsRun(PRODUCT, c, states, acts) && k < |states|
    ensures WithStatusOf(states[k].statuses, Completed) <= PRODUCT.stages.Keys && FINALIZATION in states[k].statuses
    ensures !Restartable(PRODUCT, c, WithStatusOf(states[k].statuses, Completed)) <==>
      states[k].statuses[FINALIZATION] == Completed && OptionalLost(c, states[k].statuses)
  {
    ScanIsRestartableIff(PRODUCT, c, states, acts, k);
    RunsAreSound(PRODUCT, c, states, acts, k);
    RunsSkipForCause(PRODUCT, c, states, acts, k);
    var statuses := states[k].statuses;
    if CompletedBeyondFailure(PRODUCT, c, statuses) {
      var s, d :| s in PRODUCT.stages && statuses[s] == Completed && d in PRODUCT.stages[s].dependencies
                  && d in c.enabled && d in statuses && statuses[d] in {Failed, Skipped};
      ProductLosesOnlyOptional(c, statuses, s, d);
    }
    if statuses[FINALIZATION] == Completed && OptionalLost(c, statuses) {
      var d :| d in {ARTIFACTS, ENRICHMENT, CARVING} && d in c.enabled && d in statuses
        && statuses[d] in {Failed, Skipped};
      assert d in PRODUCT.stages[FINALIZATION].dependencies;
    }
  }

  lemma ProductLosesOnlyOptional(c: Config, statuses: Statuses, s: Id, d: Id)
    requires Sound(PRODUCT, c, Scan(statuses, MandatoryFailed(PRODUCT, statuses))) && SkippedForCause(PRODUCT, statuses)
    requires s in PRODUCT.stages && statuses[s] == Completed && d in PRODUCT.stages[s].dependencies
    requires d in c.enabled && statuses[d] in {Failed, Skipped}
    ensures s == FINALIZATION && OptionalLost(c, statuses)
  {
    ProductDependencies();
    assert SoundAt(PRODUCT, c, statuses, s);
    assert Done(statuses, d) || (s == FINALIZATION && Excused(PRODUCT, c, statuses, d));
    if statuses[d] == Skipped {
      assert FailedOptional(PRODUCT, statuses, d);
      assert d == ENRICHMENT;
    }
  }

  /** Only finalization and enrichment depend on optional stages, and enrichment is only waited for by finalization. */
  lemma ProductDependencies()
    ensures PRODUCT.finalization == FINALIZATION
    ensures forall s :: s in PRODUCT.stages && s != FINALIZATION && s != ENRICHMENT ==> NeedsMandatory(s)
    ensures forall s :: s in PRODUCT.stages && ENRICHMENT in PRODUCT.stages[s].dependencies ==> s == FINALIZATION
    ensures forall d :: d in PRODUCT.stages[FINALIZATION].dependencies && !PRODUCT.stages[d].mandatory ==>
      d in {ARTIFACTS, ENRICHMENT, CARVING}
  {
  }

  ghost predicate NeedsMandatory(s: Id) {
    s in PRODUCT.stages && forall d :: d in PRODUCT.stages[s].dependencies ==>
      d in PRODUCT.stages && PRODUCT.stages[d].mandatory
  }
}
