/** scanner/read_errors.py: reading a damaged source with bounded retries and recorded gaps. */
module ReadErrors {
  import opened Arithmetic
  import opened Wrappers
  import opened Bytes

  const MAX_ATTEMPTS: nat := 16
  const MAX_BACKOFF_MS: nat := 60_000
  const MAX_ERROR_RANGES: nat := 4_096
  const MAX_READ_LENGTH_BYTES: nat := 16 * 1024 * 1024

  // ----- The source -----

  /** What one raw read did: returned so many bytes, returned something else, or raised. */
  datatype Attempt = Returned(count: nat) | NotBytes | Timeout | IoError

  /** The bytes of a device, and how its n-th read behaves at an offset and length. */
  datatype Device = Device(source: int -> Byte, behaviour: (nat, int, int) -> Attempt)

  function Slice(source: int -> Byte, offset: int, length: nat): (bytes: seq<Byte>)
    ensures |bytes| == length && forall i :: 0 <= i < length ==> bytes[i] == source(offset + i)
  {
    seq(length, i => source(offset + i))
  }

  function Zeros(length: nat): (bytes: seq<Byte>)
    ensures |bytes| == length && forall i :: 0 <= i < length ==> bytes[i] == 0
  {
    seq(length, _ => 0)
  }

  /** The read numbered `n` returns all `length` bytes. */
  predicate Good(d: Device, n: nat, offset: int, length: int) {
    d.behaviour(n, offset, length).Returned? && d.behaviour(n, offset, length).count == length
  }

  // ----- The policy -----

  datatype ReadPolicy = ReadPolicy(maxAttempts: int, baseBackoffMs: int, maxErrorRanges: int, pauseAfterErrors: int) {
    /** `ReadPolicy.__post_init__` */
    predicate Valid() {
      && 0 < maxAttempts <= MAX_ATTEMPTS
      && 0 <= baseBackoffMs <= MAX_BACKOFF_MS
      && 0 < maxErrorRanges <= MAX_ERROR_RANGES
      && 0 < pauseAfterErrors <= MAX_ERROR_RANGES
    }
  }

  /** `_backoff_seconds`, in milliseconds. */
  function BackoffMs(policy: ReadPolicy, attempt: nat): nat
    requires policy.Valid() && attempt >= 1
  {
    var ms := policy.baseBackoffMs * Power2(attempt - 1);
    if ms < MAX_BACKOFF_MS then ms else MAX_BACKOFF_MS
  }

  /** Later attempts never wait less, and none waits more than a minute. */
  lemma BackoffIsBoundedAndMonotone(policy: ReadPolicy, a: nat, b: nat)
    requires policy.Valid() && 1 <= a <= b
    ensures BackoffMs(policy, a) <= BackoffMs(policy, b) <= MAX_BACKOFF_MS
  {
    PowerGrows(a - 1, b - 1);
    MulMonotone(Power2(a - 1), Power2(b - 1), policy.baseBackoffMs);
  }

  /** The first wait is the base, and each later one twice the one before, up to a minute. */
  lemma BackoffDoubles(policy: ReadPolicy, attempt: nat)
    requires policy.Valid() && attempt >= 1
    ensures BackoffMs(policy, 1) == policy.baseBackoffMs
    ensures BackoffMs(policy, attempt + 1) ==
      if 2 * BackoffMs(policy, attempt) < MAX_BACKOFF_MS then 2 * BackoffMs(policy, attempt) else MAX_BACKOFF_MS
  {
    assert Power2(attempt) == 2 * Power2(attempt - 1);
    DoubledProduct(policy.baseBackoffMs, Power2(attempt - 1));
  }

  /** A minute for every retry. */
  function MostSleepMs(retries: nat): nat {
    if retries == 0 then 0 else MostSleepMs(retries - 1) + MAX_BACKOFF_MS
  }

  // ----- The reader -----

  datatype GapCode = ReadTimeout | Eio | InvalidData | ShortRead

  datatype ErrorRange = ErrorRange(offset: int, length: nat, code: GapCode, attempts: nat)

  datatype Counters = Counters(
    attempted: nat,
    successful: nat,
    retries: nat,
    failed: nat,
    skippedBytes: nat,
    recovered: nat,
    shortReads: nat,
    timeouts: nat,
    invalidReads: nat)

  const NO_READS := Counters(0, 0, 0, 0, 0, 0, 0, 0, 0)

  function SkippedBytes(gaps: seq<ErrorRange>): nat {
    if gaps == [] then 0 else SkippedBytes(gaps[..|gaps| - 1]) + gaps[|gaps| - 1].length
  }

  /** The code says what the attempt did. */
  ghost predicate Names(code: GapCode, outcome: Attempt) {
    && (code == ReadTimeout <==> outcome.Timeout?) && (code == Eio <==> outcome.IoError?)
    && (code == InvalidData <==> outcome.NotBytes?) && (code == ShortRead <==> outcome.Returned?)
  }

  /** How many attempts timed out, returned no bytes, returned too few or too many, or failed otherwise. */
  datatype Kinds = Kinds(timeouts: nat, notBytes: nat, short: nat, io: nat)

  function KindsOf(c: Counters, io: nat): Kinds {
    Kinds(c.timeouts, c.invalidReads, c.shortReads, io)
  }

  /** One attempt more is counted, under its own kind. */
  ghost function Counted(kinds: Kinds, outcome: Attempt): Kinds {
    match outcome
    case Timeout => kinds.(timeouts := kinds.timeouts + 1)
    case NotBytes => kinds.(notBytes := kinds.notBytes + 1)
    case Returned(_) => kinds.(short := kinds.short + 1)
    case IoError => kinds.(io := kinds.io + 1)
  }

  /** What is counted once the `k` reads from the one numbered `n` were bad. */
  ghost function Tally(d: Device, n: nat, k: nat, offset: int, length: int, before: Kinds): Kinds {
    if k == 0 then before
    else Counted(Tally(d, n, k - 1, offset, length, before), d.behaviour(n + k - 1, offset, length))
  }

  /** And the code names the last of them. */
  ghost predicate AllCounted(
    d: Device, n: nat, k: nat, offset: int, length: int, before: Kinds, after: Kinds, code: GapCode)
  {
    && after == Tally(d, n, k, offset, length, before)
    && (k > 0 ==> Names(code, d.behaviour(n + k - 1, offset, length)))
  }

  /** Every read ends as a success, is retried or gives up; every gap is accounted for; retries wait a bounded time. */
  ghost predicate Balanced(c: Counters, gaps: seq<ErrorRange>, ioErrors: nat, sleptMs: nat) {
    && c.attempted == c.successful + c.retries + c.failed
    && c.attempted == c.successful + c.shortReads + c.timeouts + c.invalidReads + ioErrors
    && c.failed == |gaps|
    && c.skippedBytes == SkippedBytes(gaps)
    && c.recovered <= c.successful
    && c.recovered <= c.retries
    && sleptMs <= MostSleepMs(c.retries)
  }

  /** Between two ranges. */
  ghost predicate Settled(c: Counters, gaps: seq<ErrorRange>) {
    && c.attempted == c.successful + c.retries + c.failed
    && c.failed == |gaps| && c.skippedBytes == SkippedBytes(gaps)
    && c.recovered <= c.successful && c.recovered <= c.retries
  }

  /** After `tried` bad attempts of one range, `retried` of which were followed by another. */
  ghost predicate Trying(start: Counters, c: Counters, tried: nat, retried: int) {
    && c.attempted == start.attempted + tried && c.retries == start.retries + retried
    && c.successful == start.successful && c.recovered == start.recovered
    && c.failed == start.failed && c.skippedBytes == start.skippedBytes
  }

  lemma GapIsSkipped(gaps: seq<ErrorRange>, gap: ErrorRange)
    ensures SkippedBytes(gaps + [gap]) == SkippedBytes(gaps) + gap.length
  {
    assert (gaps + [gap])[..|gaps|] == gaps;
  }

  /** How many reads in a row, from the one numbered `n`, come back bad: at most `limit`. */
  function BadReads(d: Device, n: nat, offset: int, length: int, limit: nat): (k: nat)
    ensures k <= limit
    ensures k < limit ==> Good(d, n + k, offset, length)
    ensures forall m: nat :: n <= m < n + k ==> !Good(d, m, offset, length)
    decreases limit
  {
    if limit == 0 || Good(d, n, offset, length) then 0
    else BadReads(d, n + 1, offset, length, limit - 1) + 1
  }

  lemma {:induction false} BadReadsAre(d: Device, n: nat, offset: int, length: int, limit: nat, k: nat)
    requires k <= limit && (k < limit ==> Good(d, n + k, offset, length))
    requires forall m: nat :: n <= m < n + k ==> !Good(d, m, offset, length)
    ensures BadReads(d, n, offset, length, limit) == k
    decreases limit
  {
    if k > 0 {
      assert !Good(d, n, offset, length);
      BadReadsAre(d, n + 1, offset, length, limit - 1, k - 1);
    }
  }

  /** Since `start` a range has been tried `bad` times, in vain, and every attempt is counted. */
  ghost predicate Failing(
    d: Device, limit: nat, start: Counters, before: Kinds, offset: int, length: int, bad: nat, c: Counters,
    kinds: Kinds, code: GapCode)
  {
    && bad <= limit && Trying(start, c, bad, if bad < limit then bad else bad - 1)
    && (forall m: nat :: start.attempted <= m < start.attempted + bad ==> !Good(d, m, offset, length))
    && AllCounted(d, start.attempted, bad, offset, length, before, kinds, code)
  }

  lemma FailingOnceMore(
    d: Device, limit: nat, start: Counters, before: Kinds, offset: int, length: int, bad: nat, c: Counters,
    kinds: Kinds, code: GapCode, after: Counters, kindsAfter: Kinds, codeAfter: GapCode)
    requires Failing(d, limit, start, before, offset, length, bad, c, kinds, code) && bad < limit
    requires !Good(d, start.attempted + bad, offset, length)
    requires Trying(start, after, bad + 1, if bad + 1 < limit then bad + 1 else bad)
    requires kindsAfter == Counted(kinds, d.behaviour(start.attempted + bad, offset, length))
    requires Names(codeAfter, d.behaviour(start.attempted + bad, offset, length))
    ensures Failing(d, limit, start, before, offset, length, bad + 1, after, kindsAfter, codeAfter)
  {
  }

  lemma FailingEnds(
    d: Device, limit: nat, start: Counters, before: Kinds, offset: int, length: int, bad: nat, c: Counters,
    kinds: Kinds, code: GapCode)
    requires Failing(d, limit, start, before, offset, length, bad, c, kinds, code)
    requires bad < limit ==> Good(d, start.attempted + bad, offset, length)
    ensures BadReads(d, start.attempted, offset, length, limit) == bad
    ensures AllCounted(d, start.attempted, bad, offset, length, before, kinds, code)
  {
    BadReadsAre(d, start.attempted, offset, length, limit, bad);
  }

  datatype RangeError = InvalidRange | RangeTooLarge

  class ResilientReader {
    const device: Device
    const policy: ReadPolicy
    var counters: Counters
    var errorRanges: seq<ErrorRange>
    ghost var ioErrors: nat
    ghost var sleptMs: nat

    ghost predicate Valid()
      reads this
    {
      && policy.Valid()
      && Balanced(counters, errorRanges, ioErrors, sleptMs)
    }

    /** One more success, after so many bad attempts, and no gap. */
    ghost predicate Succeeded(c: Counters, gaps: seq<ErrorRange>, bad: nat)
      reads this
    {
      && errorRanges == gaps && counters.attempted == c.attempted + bad + 1 && counters.successful == c.successful + 1
      && counters.recovered == c.recovered + (if bad > 0 then 1 else 0)
    }

    /** All attempts were bad, and the gap that they leave is recorded. */
    ghost predicate GaveUp(c: Counters, gaps: seq<ErrorRange>, offset: int, length: int, gap: ErrorRange)
      reads this
    {
      && gap.offset == offset && gap.length == length && gap.attempts == policy.maxAttempts
      && errorRanges == gaps + [gap]
      && counters.attempted == c.attempted + policy.maxAttempts && counters.successful == c.successful
    }

    constructor (device: Device, policy: ReadPolicy)
      requires policy.Valid()
      ensures Valid() && this.device == device && this.policy == policy
      ensures counters == NO_READS && errorRanges == []
    {
      this.device, this.policy := device, policy;
      counters, errorRanges, ioErrors, sleptMs := NO_READS, [], 0, 0;
    }

    /** One attempt that did not return the whole range. */
    method CountFailure(outcome: Attempt) returns (code: GapCode)
      modifies this
      ensures errorRanges == old(errorRanges) && sleptMs == old(sleptMs)
      ensures counters ==
        old(counters).(shortReads := counters.shortReads, timeouts := counters.timeouts,
        invalidReads := counters.invalidReads)
      ensures counters.timeouts == old(counters.timeouts) + if outcome.Timeout? then 1 else 0
      ensures counters.invalidReads == old(counters.invalidReads) + if outcome.NotBytes? then 1 else 0
      ensures counters.shortReads == old(counters.shortReads) + if outcome.Returned? then 1 else 0
      ensures ioErrors == old(ioErrors) + if outcome.IoError? then 1 else 0
      ensures (code == ReadTimeout <==> outcome.Timeout?) && (code == Eio <==> outcome.IoError?)
      ensures (code == InvalidData <==> outcome.NotBytes?) && (code == ShortRead <==> outcome.Returned?)
      ensures KindsOf(counters, ioErrors) == Counted(old(KindsOf(counters, ioErrors)), outcome)
    {
      match outcome
      case Timeout =>
        code := ReadTimeout;
        counters := counters.(timeouts := counters.timeouts + 1);
      case IoError =>
        code := Eio;
        ioErrors := ioErrors + 1;
      case NotBytes =>
        code := InvalidData;
        counters := counters.(invalidReads := counters.invalidReads + 1);
      case Returned(_) =>
        code := ShortRead;
        counters := counters.(shortReads := counters.shortReads + 1);
    }

    /** In the middle of a range: so many attempts were bad, and `uncounted` of them are of no kind yet. */
    ghost predicate Tried(start: Counters, tried: nat, retried: int, uncounted: nat)
      reads this
    {
      && Trying(start, counters, tried, retried)
      && counters.attempted ==
         counters.successful + counters.shortReads + counters.timeouts + counters.invalidReads + ioErrors + uncounted
      && sleptMs <= MostSleepMs(counters.retries)
    }

    /** After a bad attempt: its kind is counted, and unless it was the last one there is a wait and a retry. */
    method AfterBadAttempt(outcome: Attempt, attempt: nat, ghost start: Counters) returns (code: GapCode)
      requires policy.Valid() && 1 <= attempt <= policy.maxAttempts && Tried(start, attempt, attempt - 1, 1)
      modifies this
      ensures errorRanges == old(errorRanges)
      ensures KindsOf(counters, ioErrors) == Counted(old(KindsOf(counters, ioErrors)), outcome) && Names(code, outcome)
      ensures Tried(start, attempt, if attempt < policy.maxAttempts then attempt else attempt - 1, 0)
    {
      code := CountFailure(outcome);
      if attempt < policy.maxAttempts {
        counters := counters.(retries := counters.retries + 1);
        BackoffIsBoundedAndMonotone(policy, attempt, attempt);
        sleptMs := sleptMs + BackoffMs(policy, attempt);
      }
    }

    /** A bad attempt, the `attempt`-th on its range. */
    method OnBadAttempt(
      offset: int, length: int, attempt: nat, outcome: Attempt, ghost start: Counters, ghost before: Kinds,
      ghost previous: GapCode)
      returns (code: GapCode)
      requires policy.Valid() && 1 <= attempt <= policy.maxAttempts && Tried(start, attempt - 1, attempt - 1, 0)
      requires Failing(device, policy.maxAttempts, start, before, offset, length, attempt - 1, counters,
        KindsOf(counters, ioErrors), previous)
      requires outcome == device.behaviour(counters.attempted, offset, length)
      requires !Good(device, counters.attempted, offset, length)
      modifies this
      ensures errorRanges == old(errorRanges)
      ensures Failing(device, policy.maxAttempts, start, before, offset, length, attempt, counters,
        KindsOf(counters, ioErrors), code)
      ensures Tried(start, attempt, if attempt < policy.maxAttempts then attempt else attempt - 1, 0)
    {
      ghost var c, kinds := counters, KindsOf(counters, ioErrors);
      counters := counters.(attempted := counters.attempted + 1);
      assert KindsOf(counters, ioErrors) == kinds;
      code := AfterBadAttempt(outcome, attempt, start);
      FailingOnceMore(device, policy.maxAttempts, start, before, offset, length, attempt - 1, c, kinds, previous,
        counters, KindsOf(counters, ioErrors), code);
    }

    /** A good attempt ends the range. */
    method CountSuccess(attempt: nat, ghost start: Counters)
      requires policy.Valid() && 1 <= attempt && Tried(start, attempt - 1, attempt - 1, 0)
      requires Settled(start, errorRanges)
      modifies this
      ensures errorRanges == old(errorRanges)
      ensures KindsOf(counters, ioErrors) == old(KindsOf(counters, ioErrors))
      ensures Valid() && Succeeded(start, errorRanges, attempt - 1)
    {
      var recovered := counters.recovered + (if attempt > 1 then 1 else 0);
      counters := counters.(attempted := counters.attempted + 1, successful := counters.successful + 1,
        recovered := recovered);
    }

    /** After the last bad attempt: the range is recorded as a gap. */
    method RecordGap(offset: int, length: nat, code: GapCode, ghost start: Counters) returns (gap: ErrorRange)
      requires policy.Valid() && Tried(start, policy.maxAttempts, policy.maxAttempts - 1, 0)
      requires Settled(start, errorRanges)
      modifies this
      ensures Valid() && GaveUp(start, old(errorRanges), offset, length, gap) && gap.code == code
      ensures KindsOf(counters, ioErrors) == old(KindsOf(counters, ioErrors))
    {
      gap := ErrorRange(offset, length, code, policy.maxAttempts);
      GapIsSkipped(errorRanges, gap);
      errorRanges := errorRanges + [gap];
      counters := counters.(failed := counters.failed + 1, skippedBytes := counters.skippedBytes + length);
    }

    /** The loop of `read_or_gap`: attempts until one is good or the policy allows no more. */
    method TryAll(offset: int, length: int) returns (good: bool, ghost bad: nat, code: GapCode)
      requires Valid()
      modifies this
      ensures errorRanges == old(errorRanges) && bad <= policy.maxAttempts && (good <==> bad < policy.maxAttempts)
      ensures bad == BadReads(device, old(counters.attempted), offset, length, policy.maxAttempts)
      ensures AllCounted(device, old(counters.attempted), bad, offset, length, old(KindsOf(counters, ioErrors)),
        KindsOf(counters, ioErrors), code)
      ensures good ==> Valid() && Succeeded(old(counters), old(errorRanges), bad)
      ensures !good ==> Tried(old(counters), policy.maxAttempts, policy.maxAttempts - 1, 0)
    {
      ghost var start, before := counters, KindsOf(counters, ioErrors);
      var attempt := 1;
      good, code, bad := false, Eio, 0;
      while attempt <= policy.maxAttempts
        invariant 1 <= attempt <= policy.maxAttempts + 1 && bad == attempt - 1
        invariant errorRanges == old(errorRanges)
        invariant Tried(start, bad, if attempt <= policy.maxAttempts then bad else bad - 1, 0)
        invariant Failing(device, policy.maxAttempts, start, before, offset, length, bad, counters,
          KindsOf(counters, ioErrors), code)
      {
        var outcome := device.behaviour(counters.attempted, offset, length);
        good := outcome.Returned? && outcome.count == length;
        if good {
          FailingEnds(device, policy.maxAttempts, start, before, offset, length, bad, counters,
            KindsOf(counters, ioErrors), code);
          CountSuccess(attempt, start);
          return;
        }
        code := OnBadAttempt(offset, length, attempt, outcome, start, before, code);
        attempt, bad := attempt + 1, bad + 1;
      }
      FailingEnds(device, policy.maxAttempts, start, before, offset, length, bad, counters, KindsOf(counters, ioErrors),
        code);
    }

    /**
      * `read_or_gap`: the source's own bytes from the first good attempt, or zeros and one
      * recorded gap, under the name of the last attempt, when none of the policy's attempts is
      * good. Every bad attempt is counted under its own kind.
      */
    method ReadOrGap(offset: int, length: int)
      returns (r: Result<(seq<Byte>, Option<ErrorRange>), RangeError>, ghost lastCode: GapCode)
      requires Valid()
      modifies this
      ensures Valid()
      ensures r.Err? <==> offset < 0 || length < 0 || length > MAX_READ_LENGTH_BYTES
      ensures r.Err? ==> counters == old(counters) && errorRanges == old(errorRanges)
      ensures r.Ok? ==>
        var bad := BadReads(device, old(counters.attempted), offset, length, policy.maxAttempts);
        && (r.value.1.Some? ==> r.value.1.value.code == lastCode)
        && AllCounted(device, old(counters.attempted), bad, offset, length, old(KindsOf(counters, ioErrors)),
          KindsOf(counters, ioErrors), lastCode)
        && (bad < policy.maxAttempts ==>
              device.behaviour(old(counters.attempted) + bad, offset, length) == Returned(length))
        && if bad < policy.maxAttempts then
          r.value == (Slice(device.source, offset, length), None) && Succeeded(old(counters), old(errorRanges), bad)
        else
          r.value.0 == Zeros(length) && r.value.1.Some?
            && GaveUp(old(counters), old(errorRanges), offset, length, r.value.1.value)
    {
      lastCode := Eio;
      if offset < 0 || length < 0 {
        return Err(InvalidRange), lastCode;
      }
      if length > MAX_READ_LENGTH_BYTES {
        return Err(RangeTooLarge), lastCode;
      }
      ghost var start := counters;
      var good, bad, code := TryAll(offset, length);
      lastCode := code;
      if good {
        return Ok((Slice(device.source, offset, length), None)), lastCode;
      }
      var gap := RecordGap(offset, length, code, start);
      r := Ok((Zeros(length), Some(gap)));
    }
  }
}
