/**
 One job row of the catalog, under every interleaving of workers.

 Connections commit each statement on its own, so a guarded UPDATE is one atomic step and a read is another.
 An operation that reads first carries the position in the row's history at which it read.
 */
module JobState {
  import opened Arithmetic
  import opened Wrappers

  datatype State =
    | Pending | Leased | Running | Paused | Retrying
    | Completed | CompletedWarning | Failed | Cancelled

  type Owner = string

  /** A row of the jobs table; times are seconds, and `None` is SQL NULL. */
  datatype Job = Job(
    state: State,
    attempts: nat,
    maxAttempts: nat,
    owner: Option<Owner>,
    expiresAt: Option<int>,
    retryAfter: Option<int>,
    input: string,
    key: string,
    createdAt: int)

  /** `ALLOWED_TRANSITIONS`. */
  function AllowedTargets(from: State): set<State> {
    match from
    case Pending => {Leased, Cancelled}
    case Leased => {Running, Pending, Retrying, Failed, Cancelled}
    case Running => {Paused, Retrying, Completed, CompletedWarning, Failed, Cancelled}
    case Paused => {Running, Cancelled}
    case Retrying => {Pending, Failed, Cancelled}
    case _ => {}
  }

  predicate Terminal(s: State) {
    s in {Completed, CompletedWarning, Failed, Cancelled}
  }

  /** The same transitions, read from their targets: where each state can be reached from. */
  lemma TargetsAreReachedFrom(s: State)
    ensures Leased in AllowedTargets(s) <==> s == Pending
    ensures Running in AllowedTargets(s) <==> s in {Leased, Paused}
    ensures Pending in AllowedTargets(s) <==> s in {Leased, Retrying}
    ensures Retrying in AllowedTargets(s) <==> s in {Leased, Running}
    ensures Paused in AllowedTargets(s) <==> s == Running
    ensures Completed in AllowedTargets(s) <==> s == Running
    ensures CompletedWarning in AllowedTargets(s) <==> s == Running
    ensures Failed in AllowedTargets(s) <==> s in {Leased, Running, Retrying}
    ensures Cancelled in AllowedTargets(s) <==> !Terminal(s)
  {
  }

  /** The row that `create_job` inserts. */
  function NewJob(maxAttempts: nat, input: string, key: string, createdAt: int): Job {
    Job(Pending, 0, maxAttempts, None, None, None, input, key, createdAt)
  }

  // SQL comparisons with NULL are never true.
  predicate NotAfter(t: Option<int>, now: int) {
    t.Some? && t.value <= now
  }

  predicate Expired(t: Option<int>, now: int) {
    t.Some? && t.value < now
  }

  predicate Live(t: Option<int>, now: int) {
    t.Some? && t.value >= now
  }

  // ----- Steps -----

  /** One statement that a worker sends. `read` is the position of the row that its operation read before. */
  datatype Step =
    | ClaimPending(owner: Owner)
    | ClaimNext(owner: Owner, now: int, leaseSeconds: nat)
    | Heartbeat(owner: Owner, now: int, leaseSeconds: nat)
    | Transition(read: nat, to: State)
    | FinishAttempt(read: nat, transient: bool, now: int, policy: RetryPolicy)

  datatype RetryPolicy = RetryPolicy(baseDelay: nat, maxDelay: nat)

  predicate ValidPolicy(p: RetryPolicy) {
    0 < p.baseDelay <= p.maxDelay
  }

  const MAX_LEASE_SECONDS := 24 * 60 * 60

  /** The bounds that an operation checks before it sends its statement; `length` rows exist so far. */
  predicate WellFormed(s: Step, length: nat) {
    match s
    case ClaimPending(_) => true
    case ClaimNext(_, _, lease) => 0 < lease <= MAX_LEASE_SECONDS
    case Heartbeat(_, _, lease) => 0 < lease <= MAX_LEASE_SECONDS
    case Transition(read, _) => read < length
    case FinishAttempt(read, _, _, policy) => read < length && ValidPolicy(policy)
  }

  /** A row that `claim_next_job` may take. */
  predicate Runnable(j: Job, now: int) {
    || j.state == Pending
    || (j.state == Retrying && NotAfter(j.retryAfter, now))
    || (j.state in {Leased, Running} && Expired(j.expiresAt, now))
  }

  function RetryDelay(attempts: nat, policy: RetryPolicy): nat {
    var uncapped := policy.baseDelay * Power2(if attempts >= 1 then attempts - 1 else 0);
    if uncapped < policy.maxDelay then uncapped else policy.maxDelay
  }

  /** The state that `finish_attempt` writes, decided from the row it read. */
  function FinishTarget(seen: Job, transient: bool): State {
    if transient && seen.attempts < seen.maxAttempts then Retrying else Failed
  }

  /** Whether the statement changes the row `j`, when its operation had read `seen`. */
  predicate Commits(s: Step, seen: Job, j: Job) {
    match s
    case ClaimPending(_) => j.state == Pending && j.attempts < j.maxAttempts
    case ClaimNext(_, now, _) => j.attempts < j.maxAttempts && Runnable(j, now)
    case Heartbeat(owner, now, _) =>
      j.owner == Some(owner) && j.state in {Leased, Running} && Live(j.expiresAt, now)
    case Transition(_, to) => to in AllowedTargets(seen.state) && j.state == seen.state
    case FinishAttempt(_, _, _, _) => seen.state in {Leased, Running}
  }

  /** The row after a statement that changes it. */
  function Written(s: Step, seen: Job, j: Job): Job {
    match s
    case ClaimPending(owner) => j.(state := Leased, owner := Some(owner), attempts := j.attempts + 1)
    case ClaimNext(owner, now, lease) =>
      j.(state := Leased, owner := Some(owner), expiresAt := Some(now + lease), retryAfter := None,
         attempts := j.attempts + 1)
    case Heartbeat(_, now, lease) => j.(expiresAt := Some(now + lease))
    case Transition(_, to) => j.(state := to, owner := if to == Leased then seen.owner else None, expiresAt := None)
    case FinishAttempt(_, transient, now, policy) =>
      var to := FinishTarget(seen, transient);
      j.(state := to, owner := None, expiresAt := None,
         retryAfter := if to == Retrying then Some(now + RetryDelay(seen.attempts, policy)) else None)
  }

  function After(s: Step, seen: Job, j: Job): Job {
    if Commits(s, seen, j) then Written(s, seen, j) else j
  }

  // ----- Runs -----

  /** The successive contents of one row, and the statements that produced them. */
  datatype Run = Run(rows: seq<Job>, steps: seq<Step>)

  /** The row that the operation behind step `i` had read. */
  function Seen(run: Run, i: nat): Job
    requires |run.rows| == |run.steps| + 1 && i < |run.steps| && WellFormed(run.steps[i], i + 1)
  {
    match run.steps[i]
    case Transition(read, _) => run.rows[read]
    case FinishAttempt(read, _, _, _) => run.rows[read]
    case _ => run.rows[i]
  }

  ghost predicate ValidRun(run: Run) {
    && |run.rows| == |run.steps| + 1
    && run.rows[0].maxAttempts >= 1
    && run.rows[0] == NewJob(run.rows[0].maxAttempts, run.rows[0].input, run.rows[0].key, run.rows[0].createdAt)
    && (forall i {:trigger run.steps[i]} :: 0 <= i < |run.steps| ==>
          WellFormed(run.steps[i], i + 1) && run.rows[i + 1] == After(run.steps[i], Seen(run, i), run.rows[i]))
  }

  /** Step `i` changed the row. */
  ghost predicate Committed(run: Run, i: nat)
    requires ValidRun(run) && i < |run.steps|
  {
    Commits(run.steps[i], Seen(run, i), run.rows[i])
  }

  // ----- Leases are held in state leased only -----

  /** A row with an owner or an expiry is leased. */
  ghost predicate LeaseMeansLeased(j: Job) {
    j.owner.Some? || j.expiresAt.Some? ==> j.state == Leased
  }

  lemma {:induction false} LeasesOnlyWhileLeased(run: Run, i: nat)
    requires ValidRun(run) && i < |run.rows|
    ensures LeaseMeansLeased(run.rows[i])
  {
    if i > 0 {
      LeasesOnlyWhileLeased(run, i - 1);
      assert run.rows[i - 1 + 1] == After(run.steps[i - 1], Seen(run, i - 1), run.rows[i - 1]);
    }
  }

  /** So a running job is never heartbeated and never reclaimed, although both statements provide for it. */
  lemma RunningJobsHaveNoLease(run: Run, i: nat)
    requires ValidRun(run) && i < |run.steps| && run.rows[i].state == Running
    ensures !run.steps[i].Transition? && !run.steps[i].FinishAttempt? ==> run.rows[i + 1] == run.rows[i]
  {
    LeasesOnlyWhileLeased(run, i);
    assert run.rows[i + 1] == After(run.steps[i], Seen(run, i), run.rows[i]);
  }

  // ----- Attempts -----

  ghost predicate IsClaim(s: Step) {
    s.ClaimPending? || s.ClaimNext?
  }

  /** How many claims among the first `i` steps succeeded. */
  ghost function SuccessfulClaims(run: Run, i: nat): nat
    requires ValidRun(run) && i <= |run.steps|
  {
    if i == 0 then 0
    else SuccessfulClaims(run, i - 1) + if IsClaim(run.steps[i - 1]) && Committed(run, i - 1) then 1 else 0
  }

  /** Attempts count the successful claims, stay within the limit, and the input never changes. */
  lemma {:induction false} AttemptsCountClaims(run: Run, i: nat)
    requires ValidRun(run) && i <= |run.steps|
    ensures run.rows[i].attempts == SuccessfulClaims(run, i) <= run.rows[i].maxAttempts
    ensures run.rows[i].maxAttempts == run.rows[0].maxAttempts
    ensures run.rows[i].input == run.rows[0].input && run.rows[i].key == run.rows[0].key
  {
    if i > 0 {
      AttemptsCountClaims(run, i - 1);
      assert run.rows[i - 1 + 1] == After(run.steps[i - 1], Seen(run, i - 1), run.rows[i - 1]);
    }
  }

  // ----- State moves -----

  /** The row that a finish read still has the same state when its UPDATE commits. */
  ghost predicate FinishIsFresh(run: Run, i: nat)
    requires ValidRun(run) && i < |run.steps|
  {
    run.steps[i].FinishAttempt? && Committed(run, i) ==> Seen(run, i).state == run.rows[i].state
  }

  /** The state stays, moves along an allowed transition, or along a claim edge into leased. */
  ghost predicate MoveIsAllowed(run: Run, i: nat)
    requires ValidRun(run) && i < |run.steps|
  {
    var from, to := run.rows[i].state, run.rows[i + 1].state;
    from == to || to in AllowedTargets(from) || (to == Leased && from == Retrying && run.steps[i].ClaimNext?)
  }

  /**
   A move is forbidden exactly when a finish that had read an active row finds the row pending, paused or terminal
   and writes another state. Finishes that act on the state they read never make such a move.
   */
  lemma MovesAreAllowed(run: Run, i: nat)
    requires ValidRun(run) && i < |run.steps|
    ensures !MoveIsAllowed(run, i) <==>
      && run.steps[i].FinishAttempt? && Seen(run, i).state in {Leased, Running}
      && (run.rows[i].state in {Pending, Paused} || Terminal(run.rows[i].state))
      && FinishTarget(Seen(run, i), run.steps[i].transient) != run.rows[i].state
    ensures FinishIsFresh(run, i) ==> MoveIsAllowed(run, i)
  {
    LeasesOnlyWhileLeased(run, i);
    assert run.rows[i + 1] == After(run.steps[i], Seen(run, i), run.rows[i]);
  }

  /** With fresh finishes, a job that reached a terminal state keeps its whole row for ever. */
  lemma {:induction false} TerminalStatesAbsorb(run: Run, i: nat, k: nat)
    requires ValidRun(run) && i <= k < |run.rows| && Terminal(run.rows[i].state)
    requires forall m :: i <= m < k ==> FinishIsFresh(run, m)
    ensures run.rows[k] == run.rows[i]
  {
    if k > i {
      TerminalStatesAbsorb(run, i, k - 1);
      assert FinishIsFresh(run, k - 1);
      LeasesOnlyWhileLeased(run, k - 1);
      assert run.rows[k - 1 + 1] == After(run.steps[k - 1], Seen(run, k - 1), run.rows[k - 1]);
    }
  }

  /** A step takes a row out of its terminal state exactly when it is a finish that had read an older, active row
      and decides on another state: the one UPDATE without a state guard. */
  lemma TerminalIsLeftIff(run: Run, i: nat)
    requires ValidRun(run) && i < |run.steps| && Terminal(run.rows[i].state)
    ensures run.rows[i + 1].state != run.rows[i].state <==>
      run.steps[i].FinishAttempt? && Seen(run, i).state in {Leased, Running}
        && FinishTarget(Seen(run, i), run.steps[i].transient) != run.rows[i].state
  {
    LeasesOnlyWhileLeased(run, i);
    assert run.rows[i + 1] == After(run.steps[i], Seen(run, i), run.rows[i]);
  }

  function Extended(run: Run, step: Step, job: Job): Run {
    Run(run.rows + [job], run.steps + [step])
  }

  lemma OneMoreStep(run: Run, step: Step, seen: Job, job: Job)
    requires ValidRun(run) && WellFormed(step, |run.rows|) && job == After(step, seen, run.rows[|run.steps|])
    requires seen == match step
      case Transition(read, _) => run.rows[read]
      case FinishAttempt(read, _, _, _) => run.rows[read]
      case _ => run.rows[|run.steps|]
    ensures ValidRun(Extended(run, step, job))
  {
    var longer := Extended(run, step, job);
    forall i {:trigger longer.steps[i]} | 0 <= i < |longer.steps|
      ensures WellFormed(longer.steps[i], i + 1)
      ensures longer.rows[i + 1] == After(longer.steps[i], Seen(longer, i), longer.rows[i])
    {
      if i < |run.steps| {
        assert longer.steps[i] == run.steps[i] && Seen(longer, i) == Seen(run, i);
      }
    }
  }

  /** A job that was claimed and runs; then, with `to`, a transition of it. */
  lemma RunningJob(to: State) returns (run: Run, seen: Job)
    requires to in {Paused, Completed}
    ensures ValidRun(run) && |run.rows| == 4 && run.rows[2] == seen
    ensures seen == Job(Running, 1, 3, None, None, None, "{}", "key", 0) && run.rows[3] == seen.(state := to)
  {
    var j0 := NewJob(3, "{}", "key", 0);
    var j1 := Job(Leased, 1, 3, Some("worker"), Some(60), None, "{}", "key", 0);
    seen := Job(Running, 1, 3, None, None, None, "{}", "key", 0);
    run := Run([j0], []);
    OneMoreStep(run, ClaimNext("worker", 0, 60), j0, j1);
    run := Extended(run, ClaimNext("worker", 0, 60), j1);
    OneMoreStep(run, Transition(1, Running), j1, seen);
    run := Extended(run, Transition(1, Running), seen);
    OneMoreStep(run, Transition(2, to), seen, seen.(state := to));
    run := Extended(run, Transition(2, to), seen.(state := to));
  }

  /** Such a run exists: a finish that read the running row revives a job completed meanwhile. */
  lemma StaleFinishRevivesCompletedJob() returns (run: Run)
    ensures ValidRun(run) && |run.rows| == 5 && run.rows[3].state == Completed && run.rows[4].state == Retrying
  {
    var seen: Job;
    run, seen := RunningJob(Completed);
    var finish := FinishAttempt(2, true, 5, RetryPolicy(30, 300));
    var job := After(finish, seen, run.rows[3]);
    OneMoreStep(run, finish, seen, job);
    run := Extended(run, finish, job);
  }

  /** And one in which such a finish takes a paused job to failed, which no transition allows. */
  lemma StaleFinishFailsPausedJob() returns (run: Run)
    ensures ValidRun(run) && |run.rows| == 5 && run.rows[3].state == Paused && run.rows[4].state == Failed
    ensures !MoveIsAllowed(run, 3)
  {
    var seen: Job;
    run, seen := RunningJob(Paused);
    var finish := FinishAttempt(2, false, 5, RetryPolicy(30, 300));
    var job := After(finish, seen, run.rows[3]);
    OneMoreStep(run, finish, seen, job);
    run := Extended(run, finish, job);
  }

  // ----- Lease exclusion -----

  /** Who holds the lease after the first `i` steps: the last successful `claim_next_job`, unless released since. */
  ghost function Holder(run: Run, i: nat): Option<Owner>
    requires ValidRun(run) && i <= |run.steps|
  {
    if i == 0 then None
    else if !Committed(run, i - 1) then Holder(run, i - 1)
    else match run.steps[i - 1]
      case ClaimNext(owner, _, _) => Some(owner)
      case Heartbeat(_, _, _) => Holder(run, i - 1)
      case _ => None
  }

  /** The holder is exactly the owner of a leased row that has an expiry. */
  lemma {:induction false} HolderOwnsTheRow(run: Run, i: nat)
    requires ValidRun(run) && i <= |run.steps|
    ensures Holder(run, i).Some? <==> run.rows[i].expiresAt.Some?
    ensures Holder(run, i).Some? ==> run.rows[i].state == Leased && run.rows[i].owner == Holder(run, i)
  {
    if i > 0 {
      HolderOwnsTheRow(run, i - 1);
      LeasesOnlyWhileLeased(run, i - 1);
      assert run.rows[i - 1 + 1] == After(run.steps[i - 1], Seen(run, i - 1), run.rows[i - 1]);
    }
  }

  /** While someone holds the lease, no claim commits up to its expiry, and only the holder's heartbeats do. */
  lemma LeaseExcludesOthers(run: Run, i: nat)
    requires ValidRun(run) && i < |run.steps| && Holder(run, i).Some? && Committed(run, i)
    ensures !run.steps[i].ClaimPending? && run.rows[i].expiresAt.Some?
    ensures run.steps[i].ClaimNext? ==> run.steps[i].now > run.rows[i].expiresAt.value
    ensures run.steps[i].Heartbeat? ==>
      Some(run.steps[i].owner) == Holder(run, i) && run.steps[i].now <= run.rows[i].expiresAt.value
  {
    HolderOwnsTheRow(run, i);
  }

  /** The lease lasts until a claim after its expiry, a transition or a finish. */
  lemma {:induction false} LeaseLastsUntilReleased(run: Run, i: nat, k: nat, a: Owner)
    requires ValidRun(run) && i <= k <= |run.steps| && Holder(run, i) == Some(a)
    requires forall m {:trigger run.steps[m]} :: i <= m < k && Committed(run, m) ==>
      !run.steps[m].Transition? && !run.steps[m].FinishAttempt?
    requires forall m {:trigger run.steps[m]} :: i <= m < k && run.steps[m].ClaimNext? ==>
      run.rows[m].expiresAt.Some? && run.steps[m].now <= run.rows[m].expiresAt.value
    ensures Holder(run, k) == Some(a)
  {
    if k > i {
      LeaseLastsUntilReleased(run, i, k - 1, a);
      if Committed(run, k - 1) {
        assert !run.steps[k - 1].Transition? && !run.steps[k - 1].FinishAttempt?;
        LeaseExcludesOthers(run, k - 1);
      }
    }
  }

  /** Becoming the holder takes a successful claim of one's own. */
  lemma {:induction false} HolderClaimed(run: Run, i: nat, k: nat, a: Owner)
    requires ValidRun(run) && i <= k <= |run.steps| && Holder(run, i) != Some(a) && Holder(run, k) == Some(a)
    ensures exists m :: i <= m < k && run.steps[m].ClaimNext? && run.steps[m].owner == a && Committed(run, m)
  {
    if !(run.steps[k - 1].ClaimNext? && Committed(run, k - 1)) {
      HolderClaimed(run, i, k - 1, a);
    }
  }

  /** Once another worker took the lease over, the old holder's heartbeats fail until it claims again. */
  lemma OldHolderIsLockedOut(run: Run, c: nat, k: nat, a: Owner)
    requires ValidRun(run) && c < k < |run.steps|
    requires run.steps[c].ClaimNext? && run.steps[c].owner != a && Committed(run, c)
    requires forall m {:trigger run.steps[m]} :: c < m < k ==>
      !(run.steps[m].ClaimNext? && run.steps[m].owner == a && Committed(run, m))
    requires run.steps[k].Heartbeat? && run.steps[k].owner == a
    ensures !Committed(run, k)
  {
    HolderOwnsTheRow(run, k);
    if Committed(run, k) {
      HolderClaimed(run, c + 1, k, a);
    }
  }

  /** Two leases in a row never overlap: the second claim's clock is past the first lease's expiry. */
  lemma LeasesNeverOverlap(run: Run, i: nat, k: nat, a: Owner)
    requires ValidRun(run) && i < k < |run.steps| && Holder(run, i) == Some(a)
    requires run.steps[k].ClaimNext? && Committed(run, k)
    requires forall m {:trigger run.steps[m]} :: i <= m < k && Committed(run, m) ==> run.steps[m].Heartbeat?
    ensures Holder(run, k) == Some(a) && run.rows[k].expiresAt.Some? && run.steps[k].now > run.rows[k].expiresAt.value
  {
    HolderKeptByHeartbeats(run, i, k);
    LeaseExcludesOthers(run, k);
  }

  lemma {:induction false} HolderKeptByHeartbeats(run: Run, i: nat, k: nat)
    requires ValidRun(run) && i <= k <= |run.steps|
    requires forall m {:trigger run.steps[m]} :: i <= m < k && Committed(run, m) ==> run.steps[m].Heartbeat?
    ensures Holder(run, k) == Holder(run, i)
  {
    if k > i {
      HolderKeptByHeartbeats(run, i, k - 1);
      assert Committed(run, k - 1) ==> run.steps[k - 1].Heartbeat?;
    }
  }

  // ----- Retry delays -----

  /** The first delay is the base, and each later one twice the one before, up to the greatest. */
  lemma RetryDelayDoubles(attempts: nat, policy: RetryPolicy)
    requires ValidPolicy(policy) && attempts >= 1
    ensures RetryDelay(0, policy) == RetryDelay(1, policy) == policy.baseDelay
    ensures RetryDelay(attempts + 1, policy) ==
      if 2 * RetryDelay(attempts, policy) < policy.maxDelay then 2 * RetryDelay(attempts, policy) else policy.maxDelay
  {
    assert Power2(attempts) == 2 * Power2(attempts - 1);
    DoubledProduct(policy.baseDelay, Power2(attempts - 1));
  }

  /** Delays stay within the policy's bounds and never shrink from one attempt to a later one. */
  lemma RetryDelayIsBoundedAndMonotone(first: nat, later: nat, policy: RetryPolicy)
    requires ValidPolicy(policy) && first <= later
    ensures policy.baseDelay <= RetryDelay(first, policy) <= RetryDelay(later, policy) <= policy.maxDelay
  {
    var m, n := if first >= 1 then first - 1 else 0, if later >= 1 then later - 1 else 0;
    PowerGrows(m, n);
    MulMonotone(1, Power2(m), policy.baseDelay);
    MulMonotone(Power2(m), Power2(n), policy.baseDelay);
  }
}
