/** The jobs table: each method is one statement of shared/job_state.py, over the steps of `JobState`. */
module JobTable {
  import opened Wrappers
  import opened JobState

  /** Job ids matter only for equality and for breaking ties, so an id is its rank in text order. */
  type JobId = nat

  datatype Error = UnknownJob | KeyReused | Refused | StateChanged

  ghost predicate KeysUnique(rows: map<JobId, Job>) {
    forall a, b {:trigger rows[a], rows[b]} :: a in rows && b in rows && rows[a].key == rows[b].key ==> a == b
  }

  /** `ORDER BY created_at, job_id`. */
  predicate Earlier(rows: map<JobId, Job>, a: JobId, b: JobId)
    requires a in rows && b in rows
  {
    rows[a].createdAt < rows[b].createdAt || (rows[a].createdAt == rows[b].createdAt && a <= b)
  }

  class JobTable {
    var rows: map<JobId, Job>

    ghost predicate Valid()
      reads this
    {
      KeysUnique(rows)
    }

    constructor ()
      ensures Valid() && rows == map[]
    {
      rows := map[];
    }

    /** INSERT of a pending job; a taken id, a taken key or a limit below one is an integrity error. */
    method CreateJob(id: JobId, input: string, key: string, maxAttempts: nat, now: int) returns (inserted: bool)
      requires Valid()
      modifies this
      ensures Valid()
      ensures inserted <==> id !in old(rows) && maxAttempts >= 1 && forall a :: a in old(rows) ==>
        old(rows)[a].key != key
      ensures inserted ==>
        rows == old(rows)[id := Job(Pending, 0, maxAttempts, None, None, None, input, key, now)]
      ensures !inserted ==> rows == old(rows)
    {
      if id in rows || maxAttempts < 1 || (exists a :: a in rows && rows[a].key == key) {
        return false;
      }
      rows := rows[id := NewJob(maxAttempts, input, key, now)];
      inserted := true;
    }

    /** Submitting the same work twice gives the job of the first submission, not a second job. */
    method CreateOrGetJob(id: JobId, input: string, key: string, maxAttempts: nat, now: int)
      returns (result: Result<JobId, Error>)
      requires Valid()
      modifies this
      ensures Valid()
      ensures forall a :: a in old(rows) && old(rows)[a].key == key ==>
        rows == old(rows) && result == if old(rows)[a].input == input then Ok(a) else Err(KeyReused)
      ensures (forall a :: a in old(rows) ==> old(rows)[a].key != key) ==>
        if id !in old(rows) && maxAttempts >= 1 then
          result == Ok(id) && rows == old(rows)[id := Job(Pending, 0, maxAttempts, None, None, None, input, key, now)]
        else
          result == Err(Refused) && rows == old(rows)
      ensures result.Ok? ==> result.value in rows && rows[result.value].key == key && rows[result.value].input == input
    {
      var inserted := CreateJob(id, input, key, maxAttempts, now);
      if inserted {
        return Ok(id);
      }
      if exists a :: a in rows && rows[a].key == key {
        var a :| a in rows && rows[a].key == key;
        return if rows[a].input == input then Ok(a) else Err(KeyReused);
      }
      return Err(Refused);
    }

    /** The SELECT of `claim_next_job`: the earliest runnable row, exhausted or not. */
    method SelectRunnable(now: int) returns (id: Option<JobId>)
      ensures id.None? ==> forall a :: a in rows ==> !Runnable(rows[a], now)
      ensures id.Some? ==> id.value in rows && Runnable(rows[id.value], now)
      ensures id.Some? ==> forall a :: a in rows && Runnable(rows[a], now) ==>
        || rows[id.value].createdAt < rows[a].createdAt
        || (rows[id.value].createdAt == rows[a].createdAt && id.value <= a)
    {
      id := None;
      var todo := rows.Keys;
      while todo != {}
        invariant todo <= rows.Keys
        invariant id.None? ==> forall a :: a in rows.Keys - todo ==> !Runnable(rows[a], now)
        invariant id.Some? ==> id.value in rows && Runnable(rows[id.value], now)
        invariant id.Some? ==> forall a :: a in rows.Keys - todo && Runnable(rows[a], now) ==>
          Earlier(rows, id.value, a)
      {
        var a :| a in todo;
        if Runnable(rows[a], now) && (id.None? || Earlier(rows, a, id.value)) {
          id := Some(a);
        }
        todo := todo - {a};
      }
    }

    /** The UPDATE of `claim_next_job`; its guard is checked again against the row as it is now. */
    method ClaimSelected(id: JobId, owner: Owner, now: int, leaseSeconds: nat) returns (claimed: bool)
      requires Valid() && id in rows && 0 < leaseSeconds <= MAX_LEASE_SECONDS
      modifies this
      ensures Valid() && claimed == Commits(ClaimNext(owner, now, leaseSeconds), old(rows[id]), old(rows[id]))
      ensures rows == old(rows)[id := After(ClaimNext(owner, now, leaseSeconds), old(rows[id]), old(rows[id]))]
      ensures var j := old(rows[id]);
        && (claimed <==>
            j.attempts < j.maxAttempts
            && (j.state == Pending
                || (j.state == Retrying && j.retryAfter.Some? && j.retryAfter.value <= now)
                || (j.state in {Leased, Running} && j.expiresAt.Some? && j.expiresAt.value < now)))
        && (claimed ==>
              rows[id] == Job(Leased, j.attempts + 1, j.maxAttempts, Some(owner), Some(now + leaseSeconds), None,
                j.input, j.key, j.createdAt))
    {
      var j := rows[id];
      claimed := j.attempts < j.maxAttempts && Runnable(j, now);
      if claimed {
        rows := rows[id := j.(state := Leased, owner := Some(owner), expiresAt := Some(now + leaseSeconds),
                              retryAfter := None, attempts := j.attempts + 1)];
      }
    }

    /** `claim_pending_job`: one UPDATE that sets no expiry. */
    method ClaimPendingJob(id: JobId, owner: Owner) returns (claimed: bool)
      requires Valid()
      modifies this
      ensures Valid() && (claimed ==> id in old(rows))
      ensures id !in old(rows) ==> rows == old(rows)
      ensures id in old(rows) ==> claimed == Commits(ClaimPending(owner), old(rows[id]), old(rows[id]))
      ensures id in old(rows) ==> rows == old(rows)[id := After(ClaimPending(owner), old(rows[id]), old(rows[id]))]
      ensures claimed <==>
        id in old(rows) && old(rows[id]).state == Pending && old(rows[id]).attempts < old(rows[id]).maxAttempts
      ensures claimed ==> var j := old(rows[id]);
        rows[id] == Job(Leased, j.attempts + 1, j.maxAttempts, Some(owner), j.expiresAt, j.retryAfter, j.input, j.key,
          j.createdAt)
    {
      claimed := id in rows && rows[id].state == Pending && rows[id].attempts < rows[id].maxAttempts;
      if claimed {
        var j := rows[id];
        rows := rows[id := j.(state := Leased, owner := Some(owner), attempts := j.attempts + 1)];
      }
    }

    /** `heartbeat_job`: one UPDATE, accepted up to and at the exact expiry. */
    method HeartbeatJob(id: JobId, owner: Owner, now: int, leaseSeconds: nat) returns (extended: bool)
      requires Valid() && 0 < leaseSeconds <= MAX_LEASE_SECONDS
      modifies this
      ensures Valid() && (extended ==> id in old(rows))
      ensures id !in old(rows) ==> rows == old(rows)
      ensures id in old(rows) ==> extended == Commits(Heartbeat(owner, now, leaseSeconds), old(rows[id]), old(rows[id]))
      ensures id in old(rows) ==>
        rows == old(rows)[id := After(Heartbeat(owner, now, leaseSeconds), old(rows[id]), old(rows[id]))]
      ensures extended <==>
        id in old(rows) && old(rows[id]).owner == Some(owner) && old(rows[id]).state in {Leased, Running}
        && old(rows[id]).expiresAt.Some? && old(rows[id]).expiresAt.value >= now
      ensures extended ==> rows[id] == old(rows[id]).(expiresAt := Some(now + leaseSeconds))
    {
      extended := false;
      if id in rows {
        var j := rows[id];
        if j.owner == Some(owner) && (j.state == Leased || j.state == Running) && Live(j.expiresAt, now) {
          rows := rows[id := j.(expiresAt := Some(now + leaseSeconds))];
          extended := true;
        }
      }
    }

    /** The rest of `transition_job` after its read `seen`: validation, then the guarded UPDATE. */
    method CommitTransition(id: JobId, seen: Job, to: State, ghost read: nat) returns (outcome: Result<(), Error>)
      requires Valid() && id in rows
      modifies this
      ensures Valid() && (outcome.Ok? <==> Commits(Transition(read, to), seen, old(rows[id])))
      ensures outcome == Err(Refused) <==> to !in AllowedTargets(seen.state)
      ensures rows == old(rows)[id := After(Transition(read, to), seen, old(rows[id]))]
      ensures outcome == Err(StateChanged) <==> to in AllowedTargets(seen.state) && old(rows[id]).state != seen.state
      ensures outcome.Ok? ==>
        rows[id] == old(rows[id]).(state := to, owner := if to == Leased then seen.owner else None, expiresAt := None)
    {
      if to !in AllowedTargets(seen.state) {
        return Err(Refused);
      }
      var j := rows[id];
      if j.state != seen.state {
        return Err(StateChanged);
      }
      rows := rows[id := j.(state := to, owner := if to == Leased then seen.owner else None, expiresAt := None)];
      outcome := Ok(());
    }

    /** The state `record_process_death` asks `transition_job` for, from its own read. */
    method ProcessDeathTarget(seen: Job) returns (to: Result<State, Error>)
      ensures to.Ok? <==> seen.state in {Leased, Running}
      ensures to.Ok? ==> to.value in AllowedTargets(seen.state)
      ensures to.Ok? ==> to.value == if seen.attempts < seen.maxAttempts then Retrying else Failed
      ensures to.Err? ==> to.error == Refused
    {
      if seen.state != Leased && seen.state != Running {
        return Err(Refused);
      }
      to := Ok(if seen.attempts < seen.maxAttempts then Retrying else Failed);
    }

    /** The rest of `finish_attempt` after its read `seen`: the UPDATE has no state guard. */
    method CommitFinish(id: JobId, seen: Job, transient: bool, now: int, policy: RetryPolicy, ghost read: nat)
      returns (outcome: Result<State, Error>)
      requires Valid() && id in rows && ValidPolicy(policy)
      modifies this
      ensures Valid() && (outcome.Ok? <==> seen.state in {Leased, Running})
      ensures outcome == Ok(Retrying) <==>
        seen.state in {Leased, Running} && transient && seen.attempts < seen.maxAttempts
      ensures outcome == Ok(Failed) <==>
        seen.state in {Leased, Running} && !(transient && seen.attempts < seen.maxAttempts)
      ensures outcome.Ok? ==>
        rows == old(rows)[id := old(rows[id]).(
          state := outcome.value, owner := None, expiresAt := None,
          retryAfter := if outcome.value == Retrying then Some(now + RetryDelay(seen.attempts, policy)) else None)]
      ensures rows == old(rows)[id := After(FinishAttempt(read, transient, now, policy), seen, old(rows[id]))]
    {
      if seen.state != Leased && seen.state != Running {
        return Err(Refused);
      }
      var retryable := transient && seen.attempts < seen.maxAttempts;
      var delay := RetryDelay(seen.attempts, policy);
      rows := rows[id := rows[id].(state := if retryable then Retrying else Failed, owner := None, expiresAt := None,
                                   retryAfter := if retryable then Some(now + delay) else None)];
      outcome := Ok(if retryable then Retrying else Failed);
    }
  }
}
