/** shared/event_outbox.py: per-case event sequences, polling, publishing and compaction. */
module EventOutbox {
  import opened Wrappers
  import opened Keyset

  const MAX_POLL_LIMIT: nat := 500
  const MAX_COMPACT_LIMIT: nat := 10_000

  type Id = nat

  datatype Event = Event(caseId: nat, sequence: nat, payload: nat, publishedAt: Option<int>, createdAt: int)

  type Events = map<Id, Event>

  datatype OutboxError = DuplicateEvent | InvalidAfter | InvalidLimit

  // ----- Sequences -----

  /** `COALESCE(MAX(sequence), 0) + 1` */
  ghost predicate IsNext(events: Events, c: nat, next: nat) {
    && next >= 1
    && (forall e :: e in events && events[e].caseId == c ==> events[e].sequence < next)
    && (next == 1 || exists e :: e in events && events[e].caseId == c && events[e].sequence == next - 1)
  }

  method NextSequence(events: Events, c: nat) returns (next: nat)
    ensures IsNext(events, c, next)
  {
    next := 1;
    var rest := events.Keys;
    while rest != {}
      invariant rest <= events.Keys && next >= 1
      invariant forall e :: e in events && e !in rest && events[e].caseId == c ==> events[e].sequence < next
      invariant next == 1 || exists e :: e in events && events[e].caseId == c && events[e].sequence == next - 1
      decreases |rest|
    {
      var e :| e in rest;
      if events[e].caseId == c && events[e].sequence >= next {
        next := events[e].sequence + 1;
      }
      rest := rest - {e};
    }
  }

  /** An event of the case has this number already. */
  predicate NumberTaken(events: Events, c: nat, sequence: nat) {
    exists e :: e in events && events[e].caseId == c && events[e].sequence == sequence
  }

  predicate SameNumber(a: Event, b: Event) {
    a.caseId == b.caseId && a.sequence == b.sequence
  }

  /** No two events of a case share a number. */
  ghost predicate NumbersDiffer(events: Events) {
    && (forall e :: e in events ==> events[e].sequence >= 1)
    && (forall e, f :: e in events && f in events && SameNumber(events[e], events[f]) ==> e == f)
  }

  ghost predicate LoggedAt(events: Events, c: nat, log: seq<Id>, i: nat)
    requires i < |log|
  {
    log[i] in events && events[log[i]].caseId == c && events[log[i]].sequence == i + 1
  }

  /** The case's events are exactly those of the log, numbered from 1 without a gap. */
  ghost predicate IsLog(events: Events, c: nat, log: seq<Id>) {
    && (forall i: nat :: i < |log| ==> LoggedAt(events, c, log, i))
    && (forall e :: e in events && events[e].caseId == c ==>
      1 <= events[e].sequence <= |log| && log[events[e].sequence - 1] == e)
  }

  lemma NextAfterLog(events: Events, c: nat, log: seq<Id>, next: nat)
    requires IsLog(events, c, log) && IsNext(events, c, next)
    ensures next == |log| + 1
  {
    if log != [] {
      assert LoggedAt(events, c, log, |log| - 1);
    }
  }

  lemma TakenBelowNext(events: Events, c: nat, log: seq<Id>, sequence: nat)
    requires IsLog(events, c, log) && 1 <= sequence <= |log| + 1
    ensures NumberTaken(events, c, sequence) <==> sequence <= |log|
  {
    if sequence <= |log| {
      assert LoggedAt(events, c, log, sequence - 1);
    }
  }

  /**
    * Deleting events lowers the next number, so that it is given out again, if and only if the
    * case's last event is among them.
    */
  lemma NumberIsReusedIff(before: Events, after: Events, c: nat, m: nat, n: nat)
    requires forall e :: e in after ==> e in before && after[e] == before[e]
    requires NumbersDiffer(before) && IsNext(before, c, m) && IsNext(after, c, n)
    ensures n <= m
    ensures n < m <==> exists e :: e in before && before[e].caseId == c && before[e].sequence == m - 1 && e !in after
  {
    if n == m && n > 1 {
      var e :| e in after && after[e].caseId == c && after[e].sequence == n - 1;
      assert e in before && before[e].sequence == m - 1;
    }
    if n < m {
      var e :| e in before && before[e].caseId == c && before[e].sequence == m - 1;
      assert e !in after;
    }
  }

  // ----- Polling -----

  /** The part of a log after a sequence, each event under its number. */
  function Numbered(log: seq<Id>, from: nat, to: nat): (page: seq<Key>)
    requires from <= to <= |log|
    ensures |page| == to - from
    ensures forall i :: 0 <= i < to - from ==> page[i] == Key(from + i + 1, log[from + i])
  {
    seq(to - from, i requires 0 <= i < to - from => Key(from + i + 1, log[from + i]))
  }

  function Candidates(events: Events, c: nat, after: int): (keys: set<Key>)
    ensures forall k :: k in keys <==>
      k.minor in events && events[k.minor].caseId == c && events[k.minor].sequence == k.major && k.major > after
  {
    set e | e in events && events[e].caseId == c && events[e].sequence > after :: Key(events[e].sequence, e)
  }

  function End(log: seq<Id>, after: nat, limit: nat): (end: nat)
    requires after <= |log|
    ensures after <= end <= |log|
  {
    if |log| - after < limit then |log| else after + limit
  }

  /** What a poll of an uncompacted case returns is the next part of its log. */
  lemma PollIsSlice(events: Events, c: nat, log: seq<Id>, after: nat, limit: nat, page: seq<Key>)
    requires IsLog(events, c, log) && after <= |log|
    requires IsPage(Candidates(events, c, after), limit, page)
    ensures page == Numbered(log, after, End(log, after, limit))
  {
    var keys, slice := Candidates(events, c, after), Numbered(log, after, End(log, after, limit));
    forall k | k in slice ensures k in keys {
      var i: nat :| i < |slice| && slice[i] == k;
      assert LoggedAt(events, c, log, after + i);
    }
    forall k | k in keys ensures k in slice || k.major > End(log, after, limit) {
      if k.major <= End(log, after, limit) {
        assert slice[k.major - after - 1] == k;
      }
    }
    PageIsUnique(keys, limit, page, slice);
  }

  /** `_next_after` */
  function NextAfter(page: seq<Key>, fallback: int): int {
    if page == [] then fallback else page[|page| - 1].major
  }

  /** One poll: the events table and the case's log at that time, the limit, and the answer. */
  datatype Poll = Poll(events: Events, log: seq<Id>, limit: nat, page: seq<Key>)

  /** Where the reader stands after these polls, having started from 0. */
  function After(polls: seq<Poll>): int {
    if polls == [] then 0 else NextAfter(polls[|polls| - 1].page, After(polls[..|polls| - 1]))
  }

  /** What the reader was given. */
  function Seen(polls: seq<Poll>): seq<Key> {
    if polls == [] then [] else Seen(polls[..|polls| - 1]) + polls[|polls| - 1].page
  }

  /** The answer is a page of the case's events after the last sequence that the reader has seen. */
  ghost predicate PollAt(polls: seq<Poll>, c: nat, i: nat)
    requires i < |polls|
  {
    && IsLog(polls[i].events, c, polls[i].log)
    && IsPage(Candidates(polls[i].events, c, After(polls[..i])), polls[i].limit, polls[i].page)
  }

  /** A reader polls the table while the case's log only grows. */
  ghost predicate IsPolling(polls: seq<Poll>, c: nat) {
    && (forall i: nat :: i < |polls| ==> PollAt(polls, c, i))
    && (forall i, j :: 0 <= i < j < |polls| ==> polls[i].log <= polls[j].log)
  }

  lemma EarlierPolls(polls: seq<Poll>, c: nat)
    requires polls != [] && IsPolling(polls, c)
    ensures IsPolling(polls[..|polls| - 1], c)
    ensures |polls| > 1 ==> polls[|polls| - 2].log <= polls[|polls| - 1].log
  {
    var earlier := polls[..|polls| - 1];
    forall i: nat | i < |earlier| ensures PollAt(earlier, c, i) {
      assert PollAt(polls, c, i) && earlier[..i] == polls[..i];
    }
  }

  /** A further poll goes on where the reader stands. */
  lemma OnePollMore(events: Events, c: nat, log: seq<Id>, limit: nat, page: seq<Key>, after: nat)
    requires IsLog(events, c, log) && after <= |log| && IsPage(Candidates(events, c, after), limit, page)
    ensures after <= NextAfter(page, after) <= |log|
    ensures Numbered(log, 0, after) + page == Numbered(log, 0, NextAfter(page, after))
    ensures limit >= 1 && after < |log| ==> after < NextAfter(page, after)
  {
    PollIsSlice(events, c, log, after, limit, page);
    var end := End(log, after, limit);
    assert Numbered(log, 0, after) + Numbered(log, after, end) == Numbered(log, 0, end);
  }

  /** Polling yields the case's log as a prefix without gaps, and never repeats an event. */
  lemma {:induction false} PollingReadsThePrefix(polls: seq<Poll>, c: nat)
    requires polls != [] && IsPolling(polls, c)
    ensures var log := polls[|polls| - 1].log;
      0 <= After(polls) <= |log| && Seen(polls) == Numbered(log, 0, After(polls))
    decreases |polls|
  {
    var last, after := PollWithin(polls, c);
    OnePollMore(last.events, c, last.log, last.limit, last.page, after);
  }

  /** At the last poll the reader stands within the log, having seen all up to there. */
  lemma {:induction false} PollWithin(polls: seq<Poll>, c: nat) returns (last: Poll, after: nat)
    requires polls != [] && IsPolling(polls, c)
    ensures last == polls[|polls| - 1] && after == After(polls[..|polls| - 1]) && after <= |last.log|
    ensures Seen(polls[..|polls| - 1]) == Numbered(last.log, 0, after)
    ensures IsLog(last.events, c, last.log) && IsPage(Candidates(last.events, c, after), last.limit, last.page)
    decreases |polls|, 0
  {
    var earlier := polls[..|polls| - 1];
    EarlierPolls(polls, c);
    last := polls[|polls| - 1];
    assert PollAt(polls, c, |polls| - 1);
    if earlier != [] {
      PollingReadsThePrefix(earlier, c);
      LongerLogNumbers(earlier[|earlier| - 1].log, last.log, After(earlier));
    }
    after := After(earlier);
  }

  lemma LongerLogNumbers(log: seq<Id>, longer: seq<Id>, to: nat)
    requires log <= longer && to <= |log|
    ensures Numbered(log, 0, to) == Numbered(longer, 0, to)
  {
  }

  /** A poll with something to read reads something. */
  lemma PollingGoesOn(polls: seq<Poll>, c: nat)
    requires polls != [] && IsPolling(polls, c) && polls[|polls| - 1].limit >= 1
    requires After(polls[..|polls| - 1]) < |polls[|polls| - 1].log|
    ensures After(polls[..|polls| - 1]) < After(polls)
  {
    var last, after := PollWithin(polls, c);
    OnePollMore(last.events, c, last.log, last.limit, last.page, after);
  }

  // ----- The table -----

  /** `min(max(limit, 1), bound)` of a positive limit. */
  function Bounded(limit: int, bound: nat): nat
    requires limit > 0
  {
    if limit < bound then limit else bound
  }

  type Logs = nat -> seq<Id>

  class Outbox {
    var events: Events
    ghost var logs: Logs
    ghost var compacted: bool

    /** Numbers are distinct, and until something is compacted away there are no gaps. */
    ghost predicate Valid()
      reads this
    {
      && NumbersDiffer(events)
      && (!compacted ==> forall c :: IsLog(events, c, logs(c)))
    }

    constructor ()
      ensures Valid() && events == map[] && !compacted && forall c :: logs(c) == []
    {
      events, logs, compacted := map[], _ => [], false;
    }

    /**
      * The INSERT of `append_event`, of a number read earlier. The unique index refuses a number
      * that the case has meanwhile; while nothing was compacted, that is any but the next.
      */
    method InsertEvent(id: Id, caseId: nat, sequence: nat, payload: nat, now: int)
      returns (r: Result<(), OutboxError>)
      requires Valid() && sequence >= 1 && (!compacted ==> sequence <= |logs(caseId)| + 1)
      modifies this
      ensures Valid() && compacted == old(compacted)
      ensures r.Ok? <==> id !in old(events) && !NumberTaken(old(events), caseId, sequence)
      ensures !compacted ==> (r.Ok? <==> id !in old(events) && sequence == |old(logs)(caseId)| + 1)
      ensures r.Err? ==> r.error == DuplicateEvent && events == old(events) && logs == old(logs)
      ensures r.Ok? ==>
        && events == old(events)[id := Event(caseId, sequence, payload, None, now)]
        && logs(caseId) == old(logs)(caseId) + [id]
        && (forall c :: c != caseId ==> logs(c) == old(logs)(c))
    {
      if !compacted {
        TakenBelowNext(events, caseId, logs(caseId), sequence);
      }
      if id in events || NumberTaken(events, caseId, sequence) {
        return Err(DuplicateEvent);
      }
      ghost var before, was := events, logs;
      events := events[id := Event(caseId, sequence, payload, None, now)];
      logs := c => if c == caseId then was(c) + [id] else was(c);
      if !compacted {
        forall c ensures IsLog(events, c, logs(c)) {
          AppendKeepsLog(before, id, events[id], c, was(c));
        }
      }
      r := Ok(());
    }

    /** `append_event` with nothing in between: the event gets the next number of its case. */
    method AppendEvent(id: Id, caseId: nat, payload: nat, now: int) returns (r: Result<nat, OutboxError>)
      requires Valid()
      modifies this
      ensures Valid() && compacted == old(compacted)
      ensures r.Err? <==> id in old(events)
      ensures r.Err? ==> events == old(events) && logs == old(logs)
      ensures r.Ok? ==>
        && IsNext(old(events), caseId, r.value)
        && events == old(events)[id := Event(caseId, r.value, payload, None, now)]
        && logs(caseId) == old(logs)(caseId) + [id]
        && (forall c :: c != caseId ==> logs(c) == old(logs)(c))
        && (!compacted ==> r.value == |logs(caseId)|)
    {
      var next := NextSequence(events, caseId);
      if !compacted {
        NextAfterLog(events, caseId, logs(caseId), next);
      }
      var inserted := InsertEvent(id, caseId, next, payload, now);
      r := match inserted
        case Ok(_) => Ok(next)
        case Err(e) => Err(e);
    }

    /** `list_events` */
    method ListEvents(caseId: nat, after: int, limit: int) returns (r: Result<seq<Key>, OutboxError>)
      requires Valid()
      ensures r.Err? <==> after < 0 || limit <= 0
      ensures r.Ok? ==>
        IsPage(Candidates(events, caseId, after), Bounded(limit, MAX_POLL_LIMIT), r.value)
      ensures r.Ok? ==>
        && |r.value| <= limit && |r.value| <= 500
        && (forall i, j :: 0 <= i < j < |r.value| ==> r.value[i].major < r.value[j].major)
        && (forall k :: k in r.value ==>
              k.minor in events && events[k.minor].caseId == caseId && events[k.minor].sequence == k.major > after)
        && (forall e :: e in events && events[e].caseId == caseId && events[e].sequence > after ==>
              || Key(events[e].sequence, e) in r.value
              || (|r.value| == (if limit < 500 then limit else 500)
                  && forall k :: k in r.value ==> k.major < events[e].sequence))
      ensures r.Ok? && !compacted && after <= |logs(caseId)| ==>
        r.value == Numbered(logs(caseId), after,
          End(logs(caseId), after, Bounded(limit, MAX_POLL_LIMIT)))
    {
      if after < 0 {
        return Err(InvalidAfter);
      }
      if limit <= 0 {
        return Err(InvalidLimit);
      }
      var bounded := Bounded(limit, MAX_POLL_LIMIT);
      var page := LeastKeys(Candidates(events, caseId, after), bounded);
      if !compacted && after <= |logs(caseId)| {
        PollIsSlice(events, caseId, logs(caseId), after, bounded, page);
      }
      r := Ok(page);
    }

    /** `mark_published`: the first publication time stays, and so does every number. */
    method MarkPublished(ids: set<Id>, at: int) returns (count: nat)
      requires Valid()
      modifies this`events
      ensures Valid()
      ensures events.Keys == old(events).Keys
      ensures events == Marked(old(events), ids, at)
      ensures count == |ids * events.Keys|
      ensures forall e :: e in events ==>
        events[e] == old(events)[e].(publishedAt :=
          if e in ids && old(events)[e].publishedAt.None? then Some(at) else old(events)[e].publishedAt)
    {
      ghost var before := events;
      count := |ids * events.Keys|;
      events := Marked(events, ids, at);
      MarkingKeepsNumbers(before, ids, at);
      if !compacted {
        forall c ensures IsLog(events, c, logs(c)) {
          SameNumbersSameLog(before, events, c, logs(c));
        }
      }
    }

    /** `compact_published_events`: the oldest published events go; the others keep their numbers. */
    method CompactPublishedEvents(before: int, limit: int)
      returns (r: Result<nat, OutboxError>, ghost deleted: seq<Key>)
      requires Valid()
      modifies this
      ensures Valid()
      ensures r.Err? <==> limit <= 0
      ensures r.Err? || r.value == 0 ==> events == old(events) && compacted == old(compacted) && logs == old(logs)
      ensures events == Without(old(events), deleted)
      ensures r.Ok? ==>
        && r.value == |deleted|
        && IsPage(Compactable(old(events), before), Bounded(limit, MAX_COMPACT_LIMIT), deleted)
      ensures forall e :: e in old(events) && e !in events ==>
        old(events)[e].publishedAt.Some? && old(events)[e].createdAt < before
      ensures forall e :: e in events ==> e in old(events) && events[e] == old(events)[e]
      ensures r.Ok? ==>
        && r.value <= limit && r.value <= 10_000
        && (forall e :: e in events && events[e].publishedAt.Some? && events[e].createdAt < before ==>
              && r.value == (if limit < 10_000 then limit else 10_000)
              && forall k :: k in deleted ==> k.major <= events[e].createdAt)
    {
      if limit <= 0 {
        assert events == Without(events, []);
        return Err(InvalidLimit), [];
      }
      var bounded := Bounded(limit, MAX_COMPACT_LIMIT);
      var page := LeastKeys(Compactable(events, before), bounded);
      deleted := page;
      forall e | Deleted(page, e) ensures e in events && events[e].publishedAt.Some? && events[e].createdAt < before {
        var i :| 0 <= i < |page| && page[i].minor == e;
        assert page[i] in page;
      }
      forall e | e in events && !Deleted(page, e) && events[e].publishedAt.Some? && events[e].createdAt < before
        ensures |page| == bounded && forall k :: k in page ==> k.major <= events[e].createdAt
      {
        assert Key(events[e].createdAt, e) in Compactable(events, before);
        assert Key(events[e].createdAt, e) !in page;
      }
      if page != [] {
        compacted := true;
        events := Without(events, page);
      } else {
        assert events == Without(events, []);
      }
      r := Ok(|page|);
    }
  }

  /** `COALESCE(published_at, ?)` on the given events. */
  function Marked(events: Events, ids: set<Id>, at: int): (after: Events)
    ensures after.Keys == events.Keys
    ensures forall e :: e in events ==> after[e] == events[e].(publishedAt := after[e].publishedAt)
    ensures forall e :: e in events && events[e].publishedAt.Some? ==> after[e] == events[e]
  {
    map e | e in events :: if e in ids
      && events[e].publishedAt.None? then events[e].(publishedAt := Some(at)) else events[e]
  }

  lemma MarkingKeepsNumbers(events: Events, ids: set<Id>, at: int)
    requires NumbersDiffer(events)
    ensures NumbersDiffer(Marked(events, ids, at))
  {
    var after := Marked(events, ids, at);
    forall e | e in after ensures after[e].sequence == events[e].sequence && after[e].caseId == events[e].caseId {
    }
  }

  /** Published events old enough to go, as keys by age. */
  function Compactable(events: Events, before: int): set<Key> {
    set e | e in events && events[e].publishedAt.Some? && events[e].createdAt < before :: Key(events[e].createdAt, e)
  }

  function Without(events: Events, page: seq<Key>): Events {
    map e | e in events && !Deleted(page, e) :: events[e]
  }

  predicate Deleted(page: seq<Key>, e: Id) {
    exists i :: 0 <= i < |page| && page[i].minor == e
  }

  lemma AppendKeepsLog(events: Events, id: Id, event: Event, c: nat, log: seq<Id>)
    requires IsLog(events, c, log) && id !in events
    requires event.caseId == c ==> event.sequence == |log| + 1
    ensures IsLog(events[id := event], c, if event.caseId == c then log + [id] else log)
  {
    var after, longer := events[id := event], if event.caseId == c then log + [id] else log;
    forall i: nat | i < |longer| ensures LoggedAt(after, c, longer, i) {
      if i < |log| {
        assert LoggedAt(events, c, log, i);
      }
    }
  }

  lemma SameNumbersSameLog(p: Events, q: Events, c: nat, log: seq<Id>)
    requires IsLog(p, c, log) && p.Keys == q.Keys
    requires forall e :: e in p ==> p[e].caseId == q[e].caseId && p[e].sequence == q[e].sequence
    ensures IsLog(q, c, log)
  {
    forall i: nat | i < |log| ensures LoggedAt(q, c, log, i) {
      assert LoggedAt(p, c, log, i);
    }
  }

  /** A number given out twice: the last event of a case is published, compacted away, and followed by another. */
  method NumberIsReused() returns (outbox: Outbox, second: nat, third: nat)
    ensures fresh(outbox) && outbox.Valid()
    ensures second == third == 2
  {
    outbox, second := CaseWithTwoEvents();
    var count := outbox.MarkPublished({2}, 200);
    assert outbox.events == TwoEvents();
    third := CompactAndAppend(outbox);
  }

  method CaseWithTwoEvents() returns (outbox: Outbox, second: nat)
    ensures fresh(outbox) && outbox.Valid() && second == 2
    ensures outbox.events == map[1 := Event(7, 1, 0, None, 100), 2 := Event(7, 2, 0, None, 100)]
  {
    outbox := new Outbox();
    var first := outbox.AppendEvent(1, 7, 0, 100);
    assert outbox.logs(7) == [1];
    var next := outbox.AppendEvent(2, 7, 0, 100);
    assert outbox.logs(7) == [1, 2];
    second := next.value;
  }

  method CompactAndAppend(outbox: Outbox) returns (third: nat)
    requires outbox.Valid() && outbox.events == TwoEvents()
    modifies outbox
    ensures outbox.Valid() && third == 2
  {
    var removed, deleted := outbox.CompactPublishedEvents(300, 10);
    OnlyEventGoes(TwoEvents(), 2, 300, 10, deleted);
    ghost var left := outbox.events;
    var c := outbox.AppendEvent(3, 7, 0, 400);
    NextAfterFirst(left, c.value);
    third := c.value;
  }

  function TwoEvents(): Events {
    map[1 := Event(7, 1, 0, None, 100), 2 := Event(7, 2, 0, Some(200), 100)]
  }

  lemma NextAfterFirst(events: Events, next: nat)
    requires events == TwoEvents() - {2} && IsNext(events, 7, next)
    ensures next == 2 && 3 !in events
  {
    assert 1 in events && events[1].sequence == 1;
    assert forall e :: e in events ==> e == 1;
  }

  /** Two appends to a case that both read the number before either inserts: the second is refused. */
  method RacingAppends(outbox: Outbox, first: Id, second: Id, caseId: nat, payload: nat, now: int)
    returns (number: nat, r: Result<(), OutboxError>, s: Result<(), OutboxError>)
    requires outbox.Valid()
    modifies outbox
    ensures outbox.Valid() && IsNext(old(outbox.events), caseId, number)
    ensures r.Ok? <==> first !in old(outbox.events)
    ensures r.Ok? ==> s == Err(DuplicateEvent)
    ensures r.Err? ==> (s.Ok? <==> second !in old(outbox.events))
    ensures r.Ok? ==> outbox.events == old(outbox.events)[first := Event(caseId, number, payload, None, now)]
  {
    number := NextSequence(outbox.events, caseId);
    var again := NextSequence(outbox.events, caseId);
    if !outbox.compacted {
      NextAfterLog(outbox.events, caseId, outbox.logs(caseId), number);
      NextAfterLog(outbox.events, caseId, outbox.logs(caseId), again);
    }
    NextIsUnique(outbox.events, caseId, number, again);
    r := outbox.InsertEvent(first, caseId, number, payload, now);
    if r.Ok? {
      assert outbox.events[first].caseId == caseId && outbox.events[first].sequence == number;
      assert NumberTaken(outbox.events, caseId, number);
    }
    s := outbox.InsertEvent(second, caseId, again, payload, now);
  }

  lemma NextIsUnique(events: Events, c: nat, m: nat, n: nat)
    requires IsNext(events, c, m) && IsNext(events, c, n)
    ensures m == n && !NumberTaken(events, c, n)
  {
  }

  /** If only one event can be compacted away, it is. */
  lemma OnlyEventGoes(events: Events, id: Id, before: int, limit: nat, deleted: seq<Key>)
    requires id in events && events[id].publishedAt.Some? && events[id].createdAt < before && limit >= 2
    requires forall e :: e in events && e != id ==> events[e].publishedAt.None?
    requires IsPage(Compactable(events, before), limit, deleted)
    ensures Without(events, deleted) == events - {id}
  {
    var key := Key(events[id].createdAt, id);
    assert key in Compactable(events, before);
    forall i | 0 <= i < |deleted| ensures deleted[i] == key {
      assert deleted[i] in deleted;
    }
    assert |deleted| >= 2 ==> Before(deleted[0], deleted[1]);
    assert key in deleted;
    var i :| 0 <= i < |deleted| && deleted[i] == key;
    assert forall e :: Deleted(deleted, e) <==> e == id;
  }
}
