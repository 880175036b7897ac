/**
  * Review actions statement by statement. The connection commits every UPDATE and INSERT by
  * itself, so other actions may read and write in between, and an action may end part way.
  */
module ReviewInterleaving {
  import opened Collections
  import opened Ordering
  import opened Review

  /**
    * An action under way: the statuses it read, how many of its rows it has inserted, and
    * whether it has already updated the finding of the next row.
    */
  datatype Pass = Pass(action: Action, seen: map<Id, FindingStatus>, done: nat, written: bool)

  datatype Desk = Desk(book: Book, passes: map<nat, Pass>)

  ghost predicate Known(t: Pass) {
    && Ascending(t.action.targets)
    && t.done + (if t.written then 1 else 0) <= |t.action.targets|
    && (forall f :: f in t.action.targets ==> f in t.seen)
    && (t.written ==> t.seen[t.action.targets[t.done]] != t.action.target)
  }

  predicate Finished(t: Pass) {
    t.done == |t.action.targets|
  }

  /** The next statement: an UPDATE where the status that was read is another one, then the INSERT. */
  ghost function Execute(b: Book, t: Pass): (r: (Book, Pass))
    requires Known(t) && !Finished(t)
  {
    var f := t.action.targets[t.done];
    if !t.written && t.seen[f] != t.action.target then
      (b.(statuses := b.statuses[f := t.action.target]), t.(written := true))
    else
      (b.(rows := b.rows[RowId(t.action.group, t.done) := Note(f, t.seen[f], t.action.target, false)]),
       t.(done := t.done + 1, written := false))
  }

  datatype Move = Begin(action: Action) | Next(group: nat)

  /** An action reads the statuses, or one that has begun executes its next statement. */
  ghost predicate Step(d: Desk, m: Move, e: Desk) {
    match m
    case Begin(a) =>
      && a.targets != [] && Ascending(a.targets) && (forall f :: f in a.targets ==> f in d.book.statuses)
      && Fresh(d.book, a.group) && a.group !in d.passes
      && e == d.(passes := d.passes[a.group := Pass(a, d.book.statuses, 0, false)])
    case Next(g) =>
      && g in d.passes && Known(d.passes[g]) && !Finished(d.passes[g])
      && var (b, t) := Execute(d.book, d.passes[g]);
      e == Desk(b, d.passes[g := t])
  }

  // ----- What every interleaving keeps -----

  /** The rows that the action has inserted so far, as an action of their own. */
  function Part(t: Pass): Action
    requires t.done <= |t.action.targets|
  {
    t.action.(targets := t.action.targets[..t.done])
  }

  /** The rows of a pass note what it read, however statuses have changed since. */
  ghost predicate PassKept(d: Desk, ids: set<Id>, g: nat)
    requires g in d.passes
  {
    var t := d.passes[g];
    t.action.group == g && t.seen.Keys == ids && Known(t) && Noted(d.book.rows, t.seen, Part(t))
  }

  /** The pass has come past this finding. */
  ghost predicate Passed(t: Pass, f: Id)
    requires Known(t)
  {
    f in t.action.targets[..t.done + if t.written then 1 else 0]
  }

  /** The status of a finding that only this pass changes. */
  ghost function StatusBy(t: Pass, f: Id, start: FindingStatus): FindingStatus
    requires Known(t)
  {
    if Passed(t, f) then t.action.target else start
  }

  /** Of all passes only this one has the finding among its targets. */
  ghost predicate Sole(d: Desk, g: nat, f: Id) {
    g in d.passes && f in d.passes[g].action.targets && forall h :: h in d.passes && h != g ==>
      f !in d.passes[h].action.targets
  }

  /** A finding of one pass only has that pass's target or the status from the start, which the pass read. */
  ghost predicate SoleKept(d: Desk, initial: map<Id, FindingStatus>, g: nat, f: Id)
    requires g in d.passes && f in initial && f in d.book.statuses
  {
    Sole(d, g, f) ==>
      && Known(d.passes[g]) && f in d.passes[g].seen && d.passes[g].seen[f] == initial[f]
      && d.book.statuses[f] == StatusBy(d.passes[g], f, initial[f])
  }

  ghost predicate Free(d: Desk, f: Id) {
    forall g :: g in d.passes ==> f !in d.passes[g].action.targets
  }

  ghost predicate Kept(d: Desk, initial: map<Id, FindingStatus>) {
    && d.book.statuses.Keys == initial.Keys
    && (forall g {:trigger PassKept(d, initial.Keys, g)} :: g in d.passes ==> PassKept(d, initial.Keys, g))
    && (forall f {:trigger Free(d, f)} :: f in initial && Free(d, f) ==> d.book.statuses[f] == initial[f])
    && (forall g, f {:trigger SoleKept(d, initial, g, f)} :: g in d.passes && f in initial ==>
          SoleKept(d, initial, g, f))
  }

  lemma BeginKeeps(d: Desk, initial: map<Id, FindingStatus>, a: Action, e: Desk)
    requires Kept(d, initial) && Step(d, Begin(a), e)
    ensures Kept(e, initial)
  {
    forall g | g in e.passes ensures PassKept(e, initial.Keys, g) {
      if g in d.passes {
        assert PassKept(d, initial.Keys, g);
      }
    }
    forall f | f in initial && Free(e, f) ensures e.book.statuses[f] == initial[f] {
      assert forall g :: g in d.passes ==> g in e.passes && d.passes[g] == e.passes[g];
      assert Free(d, f);
    }
    forall g, f | g in e.passes && f in initial ensures SoleKept(e, initial, g, f) {
      BeginKeepsSole(d, initial, a, e, g, f);
    }
  }

  lemma BeginKeepsSole(d: Desk, initial: map<Id, FindingStatus>, a: Action, e: Desk, g: nat, f: Id)
    requires Kept(d, initial) && Step(d, Begin(a), e) && g in e.passes && f in initial && Known(e.passes[g])
    ensures SoleKept(e, initial, g, f)
  {
    if Sole(e, g, f) {
      assert forall h :: h in d.passes ==> h in e.passes && d.passes[h] == e.passes[h];
      if g == a.group {
        assert Free(d, f);
      } else {
        assert Sole(d, g, f) && SoleKept(d, initial, g, f);
      }
    }
  }

  lemma ExecuteKeepsPass(b: Book, t: Pass, b': Book, t': Pass)
    requires Known(t) && !Finished(t) && Noted(b.rows, t.seen, Part(t)) && (b', t') == Execute(b, t)
    ensures t'.action == t.action && t'.seen == t.seen && Known(t') && Noted(b'.rows, t.seen, Part(t'))
    ensures forall r: RowId :: r.group != t.action.group ==>
      (r in b'.rows <==> r in b.rows) && (r in b.rows ==> b'.rows[r] == b.rows[r])
  {
    if t'.done > t.done {
      assert t.action.targets[..t.done + 1] == t.action.targets[..t.done] + [t.action.targets[t.done]];
    }
  }

  lemma OtherPassKept(
    rows: map<RowId, Note>, after: map<RowId, Note>, seen: map<Id, FindingStatus>, part: Action, g: nat)
    requires Noted(rows, seen, part) && part.group != g
    requires forall r: RowId :: r.group != g ==> (r in after <==> r in rows) && (r in rows ==> after[r] == rows[r])
    ensures Noted(after, seen, part)
  {
  }

  /** A statement gives the finding it is about the pass's target, and leaves all others alone. */
  lemma ExecutePasses(b: Book, t: Pass, b': Book, t': Pass, f: Id)
    requires Known(t) && !Finished(t) && (b', t') == Execute(b, t) && Known(t') && f in b.statuses
    requires t.action.targets[t.done] in b.statuses
    ensures b'.statuses.Keys == b.statuses.Keys
    ensures f !in t.action.targets ==> b'.statuses[f] == b.statuses[f]
    ensures f in t.action.targets && b.statuses[f] == StatusBy(t, f, t.seen[f]) ==>
      b'.statuses[f] == StatusBy(t', f, t.seen[f])
  {
    var next := t.action.targets[t.done];
    var i := t.done + if t.written then 1 else 0;
    var j := t'.done + if t'.written then 1 else 0;
    if j == i + 1 {
      assert t.action.targets[..j] == t.action.targets[..i] + [next];
    }
    if f == next && !t.written {
      assert f !in t.action.targets[..t.done];
    }
  }

  /** A statement changes neither the actions under way nor what they have read. */
  ghost predicate SamePasses(d: Desk, e: Desk) {
    d.passes.Keys == e.passes.Keys && forall h :: h in d.passes ==>
      d.passes[h].action == e.passes[h].action && d.passes[h].seen == e.passes[h].seen
  }

  lemma SoleBefore(d: Desk, e: Desk, f: Id)
    requires SamePasses(d, e)
    ensures Free(e, f) ==> Free(d, f)
    ensures forall g :: Sole(e, g, f) ==> Sole(d, g, f)
  {
  }

  /** What a statement does to the desk, pass by pass. */
  lemma NextStep(d: Desk, initial: map<Id, FindingStatus>, n: nat, e: Desk)
    requires Kept(d, initial) && Step(d, Next(n), e)
    ensures SamePasses(d, e) && e.passes == d.passes[n := e.passes[n]] && PassKept(e, initial.Keys, n)
    ensures Known(d.passes[n]) && !Finished(d.passes[n]) && (e.book, e.passes[n]) == Execute(d.book, d.passes[n])
    ensures d.passes[n].action.targets[d.passes[n].done] in d.book.statuses
    ensures forall r: RowId :: r.group != n ==>
      (r in e.book.rows <==> r in d.book.rows) && (r in d.book.rows ==> e.book.rows[r] == d.book.rows[r])
  {
    assert PassKept(d, initial.Keys, n);
    var t := d.passes[n];
    var (b, u) := Execute(d.book, t);
    ExecuteKeepsPass(d.book, t, b, u);
    assert t.action.targets[t.done] in t.action.targets;
  }

  lemma NextKeepsSole(d: Desk, initial: map<Id, FindingStatus>, n: nat, e: Desk, g: nat, f: Id)
    requires Kept(d, initial) && Step(d, Next(n), e) && g in e.passes && f in initial
    requires Known(e.passes[g]) && f in e.book.statuses
    ensures SoleKept(e, initial, g, f)
  {
    if Sole(e, g, f) {
      NextStep(d, initial, n, e);
      SoleBefore(d, e, f);
      assert SoleKept(d, initial, g, f);
      ExecutePasses(d.book, d.passes[n], e.book, e.passes[n], f);
    }
  }

  lemma NextKeepsPass(d: Desk, initial: map<Id, FindingStatus>, n: nat, e: Desk, g: nat)
    requires Kept(d, initial) && Step(d, Next(n), e) && g in e.passes
    ensures PassKept(e, initial.Keys, g)
  {
    NextStep(d, initial, n, e);
    assert g in d.passes && PassKept(d, initial.Keys, g);
    if g != n {
      OtherPassKept(d.book.rows, e.book.rows, d.passes[g].seen, Part(d.passes[g]), n);
    }
  }

  lemma NextKeepsFree(d: Desk, initial: map<Id, FindingStatus>, n: nat, e: Desk, f: Id)
    requires Kept(d, initial) && Step(d, Next(n), e) && f in initial
    ensures f in e.book.statuses && (Free(e, f) ==> e.book.statuses[f] == initial[f])
  {
    NextStep(d, initial, n, e);
    SoleBefore(d, e, f);
    ExecutePasses(d.book, d.passes[n], e.book, e.passes[n], f);
  }

  lemma NextKeeps(d: Desk, initial: map<Id, FindingStatus>, n: nat, e: Desk)
    requires Kept(d, initial) && Step(d, Next(n), e)
    ensures Kept(e, initial)
  {
    NextStep(d, initial, n, e);
    forall g | g in e.passes ensures PassKept(e, initial.Keys, g) {
      NextKeepsPass(d, initial, n, e, g);
    }
    forall f | f in initial ensures f in e.book.statuses && (Free(e, f) ==> e.book.statuses[f] == initial[f]) {
      NextKeepsFree(d, initial, n, e, f);
    }
    forall g, f | g in e.passes && f in initial ensures SoleKept(e, initial, g, f) {
      NextKeepsSole(d, initial, n, e, g, f);
    }
  }

  // ----- Runs -----

  ghost predicate StepAt(desks: seq<Desk>, moves: seq<Move>, i: nat)
    requires |desks| == |moves| + 1 && i < |moves|
  {
    Step(desks[i], moves[i], desks[i + 1])
  }

  /** Any interleaving of any number of actions, none of them under way at the start. */
  ghost predicate IsRun(desks: seq<Desk>, moves: seq<Move>) {
    && |desks| == |moves| + 1 && desks[0].passes == map[]
    && forall i: nat :: i < |moves| ==> StepAt(desks, moves, i)
  }

  lemma {:induction false} RunsAreKept(desks: seq<Desk>, moves: seq<Move>, k: nat)
    requires IsRun(desks, moves) && k <= |moves|
    ensures Kept(desks[k], desks[0].book.statuses)
  {
    if k > 0 {
      RunsAreKept(desks, moves, k - 1);
      assert StepAt(desks, moves, k - 1);
      match moves[k - 1]
      case Begin(a) => BeginKeeps(desks[k - 1], desks[0].book.statuses, a, desks[k]);
      case Next(g) => NextKeeps(desks[k - 1], desks[0].book.statuses, g, desks[k]);
    }
  }

  /** Undoing what a pass has recorded gives these findings back what the pass read, and nothing else. */
  lemma UndoGivesBackWhatWasRead(desks: seq<Desk>, moves: seq<Move>, k: nat, g: nat, after: Book)
    requires IsRun(desks, moves) && k <= |moves| && g in desks[k].passes && desks[k].passes[g].done > 0
    requires UndoneTo(desks[k].book, RowId(g, 0), after)
    ensures var b, t := desks[k].book, desks[k].passes[g];
      && t.seen.Keys == after.statuses.Keys == b.statuses.Keys && t.done <= |t.action.targets|
      && forall f :: f in b.statuses ==>
        after.statuses[f] == if f in t.action.targets[..t.done] then t.seen[f] else b.statuses[f]
  {
    RunsAreKept(desks, moves, k);
    assert PassKept(desks[k], desks[0].book.statuses.Keys, g);
    UndoGivesBack(desks[k].book, desks[k].passes[g].seen, Part(desks[k].passes[g]), after);
  }

  /** What the pass read of a finding of its own, and what it has made of it. */
  lemma SoleOutcome(d: Desk, initial: map<Id, FindingStatus>, g: nat, f: Id)
    requires Kept(d, initial) && f in initial && Sole(d, g, f)
    ensures f in d.passes[g].seen && d.passes[g].seen[f] == initial[f] && f in d.book.statuses && Known(d.passes[g])
    ensures d.book.statuses[f] == StatusBy(d.passes[g], f, initial[f])
  {
    assert PassKept(d, initial.Keys, g) && SoleKept(d, initial, g, f);
  }

  // ----- Two actions -----

  /** A finding of one of two finished passes only, or of neither. */
  ghost predicate Settled(
    initial: map<Id, FindingStatus>, t: Pass, u: Pass, statuses: map<Id, FindingStatus>, f: Id)
  {
    && f in initial && f in statuses
    && (f in t.action.targets && f !in u.action.targets ==>
          f in t.seen && t.seen[f] == initial[f] && statuses[f] == t.action.target)
    && (f !in t.action.targets && f !in u.action.targets ==> statuses[f] == initial[f])
  }

  /** These are the only passes, and both have come to their end. */
  ghost predicate BothFinished(d: Desk, g: nat, h: nat) {
    g != h && d.passes.Keys == {g, h} && Finished(d.passes[g]) && Finished(d.passes[h])
    && d.passes[g].action.targets != [] && d.passes[h].action.targets != []
  }

  lemma OneSettled(d: Desk, initial: map<Id, FindingStatus>, g: nat, h: nat, f: Id)
    requires Kept(d, initial) && BothFinished(d, g, h) && f in initial
    ensures Settled(initial, d.passes[g], d.passes[h], d.book.statuses, f)
  {
    if f !in d.passes[h].action.targets {
      if f in d.passes[g].action.targets {
        assert Sole(d, g, f);
        SoleOutcome(d, initial, g, f);
        FinishedIsWhole(d.passes[g]);
      } else {
        assert Free(d, f);
      }
    }
  }

  lemma FinishedIsWhole(t: Pass)
    requires Finished(t)
    ensures Part(t) == t.action && t.action.targets[..t.done] == t.action.targets
  {
    assert t.action.targets[..|t.action.targets|] == t.action.targets;
  }

  /** Both passes' rows note what they read. */
  lemma BothNoted(d: Desk, initial: map<Id, FindingStatus>, g: nat, h: nat)
    requires Kept(d, initial) && BothFinished(d, g, h)
    ensures Noted(d.book.rows, d.passes[g].seen, d.passes[g].action) && d.passes[g].action.group == g
    ensures Noted(d.book.rows, d.passes[h].seen, d.passes[h].action) && d.passes[h].action.group == h
    ensures d.passes[g].seen.Keys == d.passes[h].seen.Keys == d.book.statuses.Keys == initial.Keys
  {
    assert PassKept(d, initial.Keys, g) && PassKept(d, initial.Keys, h);
    FinishedIsWhole(d.passes[g]);
    FinishedIsWhole(d.passes[h]);
  }

  /** The statuses once the findings of a pass have got back what it read. */
  ghost predicate GivesBack(t: Pass, before: map<Id, FindingStatus>, after: map<Id, FindingStatus>) {
    t.seen.Keys == before.Keys == after.Keys && forall f :: f in before ==>
      after[f] == if f in t.action.targets then t.seen[f] else before[f]
  }

  /** The pass read every finding that it shares with `other` with the status given by `status`. */
  ghost predicate ReadAs(t: Pass, other: Action, status: map<Id, FindingStatus>) {
    forall f :: f in t.action.targets && f in other.targets && f in t.seen && f in status ==> t.seen[f] == status[f]
  }

  lemma KeptAloneIff(
    initial: map<Id, FindingStatus>, t: Pass, u: Pass, statuses: map<Id, FindingStatus>, after: map<Id, FindingStatus>)
    requires initial.Keys == statuses.Keys && GivesBack(u, statuses, after)
    requires forall f :: f in initial ==> Settled(initial, t, u, statuses, f) && Settled(initial, u, t, statuses, f)
    ensures after == AppliedStatuses(initial, t.action.targets, t.action.target) <==>
      ReadAs(u, t.action, AppliedStatuses(initial, t.action.targets, t.action.target))
  {
    var alone := AppliedStatuses(initial, t.action.targets, t.action.target);
    forall f | f in initial
      ensures after[f] == alone[f] <==> (f in u.action.targets && f in t.action.targets ==> u.seen[f] == alone[f])
    {
      assert Settled(initial, t, u, statuses, f) && Settled(initial, u, t, statuses, f);
    }
  }

  /** What is known of two passes once both have come to their end, in whatever order. */
  ghost predicate Ended(initial: map<Id, FindingStatus>, b: Book, t: Pass, u: Pass) {
    && t.action.targets != [] && u.action.targets != [] && t.action.group != u.action.group
    && Noted(b.rows, t.seen, t.action) && Noted(b.rows, u.seen, u.action)
    && t.seen.Keys == u.seen.Keys == b.statuses.Keys == initial.Keys
    && forall f :: f in initial ==> Settled(initial, t, u, b.statuses, f) && Settled(initial, u, t, b.statuses, f)
  }

  lemma RunEnds(desks: seq<Desk>, moves: seq<Move>, g: nat, h: nat)
    requires IsRun(desks, moves) && BothFinished(desks[|moves|], g, h)
    ensures var d := desks[|moves|];
      Ended(desks[0].book.statuses, d.book, d.passes[g], d.passes[h])
    ensures desks[|moves|].passes[g].action.group == g && desks[|moves|].passes[h].action.group == h
  {
    var initial, d := desks[0].book.statuses, desks[|moves|];
    RunsAreKept(desks, moves, |moves|);
    BothNoted(d, initial, g, h);
    forall f | f in initial
      ensures Settled(initial, d.passes[g], d.passes[h], d.book.statuses, f)
      ensures Settled(initial, d.passes[h], d.passes[g], d.book.statuses, f)
    {
      OneSettled(d, initial, g, h, f);
      OneSettled(d, initial, h, g, f);
    }
  }

  lemma UndoOneEndedIff(initial: map<Id, FindingStatus>, b: Book, t: Pass, u: Pass, after: Book)
    requires Ended(initial, b, t, u) && UndoneTo(b, RowId(u.action.group, 0), after)
    ensures after.statuses == AppliedStatuses(initial, t.action.targets, t.action.target) <==>
      ReadAs(u, t.action, AppliedStatuses(initial, t.action.targets, t.action.target))
  {
    UndoGivesBack(b, u.seen, u.action, after);
    KeptAloneIff(initial, t, u, b.statuses, after.statuses);
  }

  /**
    * However two actions interleave, undoing one leaves what the other alone would have given if
    * and only if it read their common findings with the target of the other: after the other had
    * changed them, or because they had it anyway.
    */
  lemma UndoOneOfTwoIff(desks: seq<Desk>, moves: seq<Move>, g: nat, h: nat, after: Book)
    requires IsRun(desks, moves) && BothFinished(desks[|moves|], g, h)
    requires UndoneTo(desks[|moves|].book, RowId(h, 0), after)
    ensures var d := desks[|moves|];
      var kept := d.passes[g].action;
      var alone := AppliedStatuses(desks[0].book.statuses, kept.targets, kept.target);
      after.statuses == alone <==> ReadAs(d.passes[h], kept, alone)
  {
    RunEnds(desks, moves, g, h);
    var d := desks[|moves|];
    UndoOneEndedIff(desks[0].book.statuses, d.book, d.passes[g], d.passes[h], after);
  }

  lemma BothGivenBackIff(
    initial: map<Id, FindingStatus>, t: Pass, u: Pass, statuses: map<Id, FindingStatus>,
    once: map<Id, FindingStatus>, twice: map<Id, FindingStatus>)
    requires initial.Keys == statuses.Keys && GivesBack(u, statuses, once) && GivesBack(t, once, twice)
    requires forall f :: f in initial ==> Settled(initial, t, u, statuses, f) && Settled(initial, u, t, statuses, f)
    ensures twice == initial <==> ReadAs(t, u.action, initial)
  {
    forall f | f in initial
      ensures twice[f] == initial[f] <==> (f in t.action.targets && f in u.action.targets ==> t.seen[f] == initial[f])
    {
      assert Settled(initial, t, u, statuses, f) && Settled(initial, u, t, statuses, f);
    }
  }

  /**
    * Undoing both, `g` last, gives every finding its first status back if and only if `g` read
    * their common findings as they were at the start, as it does when it reads first.
    */
  lemma UndoBothIff(desks: seq<Desk>, moves: seq<Move>, g: nat, h: nat, once: Book, twice: Book)
    requires IsRun(desks, moves) && BothFinished(desks[|moves|], g, h)
    requires UndoneTo(desks[|moves|].book, RowId(h, 0), once) && UndoneTo(once, RowId(g, 0), twice)
    ensures var d := desks[|moves|];
      twice.statuses == desks[0].book.statuses <==>
      ReadAs(d.passes[g], d.passes[h].action, desks[0].book.statuses)
  {
    RunEnds(desks, moves, g, h);
    var d := desks[|moves|];
    UndoBothEndedIff(desks[0].book.statuses, d.book, d.passes[g], d.passes[h], once, twice);
  }

  lemma UndoBothEndedIff(initial: map<Id, FindingStatus>, b: Book, t: Pass, u: Pass, once: Book, twice: Book)
    requires Ended(initial, b, t, u)
    requires UndoneTo(b, RowId(u.action.group, 0), once) && UndoneTo(once, RowId(t.action.group, 0), twice)
    ensures twice.statuses == initial <==> ReadAs(t, u.action, initial)
  {
    UndoGivesBack(b, u.seen, u.action, once);
    OtherNotesStay(b.rows, t.seen, t.action, u.action.group);
    UndoGivesBack(once, t.seen, t.action, twice);
    BothGivenBackIff(initial, t, u, b.statuses, once.statuses, twice.statuses);
  }

  // ----- One action -----

  /** Rows of no pass are those from the start, and the passes' groups were new. */
  ghost predicate OthersKept(d: Desk, rows: map<RowId, Note>) {
    && (forall r: RowId :: r in rows ==> r.group !in d.passes)
    && (forall r: RowId :: r.group !in d.passes ==>
          (r in d.book.rows <==> r in rows) && (r in rows ==> d.book.rows[r] == rows[r]))
  }

  lemma {:induction false} OthersAreKept(desks: seq<Desk>, moves: seq<Move>, k: nat)
    requires IsRun(desks, moves) && k <= |moves|
    ensures OthersKept(desks[k], desks[0].book.rows)
  {
    if k > 0 {
      OthersAreKept(desks, moves, k - 1);
      RunsAreKept(desks, moves, k - 1);
      assert StepAt(desks, moves, k - 1);
      if moves[k - 1].Next? {
        NextStep(desks[k - 1], desks[0].book.statuses, moves[k - 1].group, desks[k]);
      }
    }
  }

  /** Apart from the action's own rows, which note these statuses, the rows are those of the book. */
  ghost predicate OnlyNoted(b: Book, a: Action, rows: map<RowId, Note>) {
    && (forall f :: f in a.targets ==> f in b.statuses) && Noted(rows, b.statuses, a)
    && forall r: RowId {:trigger r in rows} :: r.group != a.group ==>
      (r in rows <==> r in b.rows) && (r in b.rows ==> rows[r] == b.rows[r])
  }

  lemma AloneRow(b: Book, a: Action, rows: map<RowId, Note>, r: RowId)
    requires OnlyNoted(b, a, rows) && Fresh(b, a.group)
    ensures var applied := b.rows + NewRows(b, a.group, a.targets, a.target);
      (r in rows <==> r in applied) && (r in rows ==> rows[r] == applied[r])
  {
    if r.group == a.group {
      assert r == RowId(a.group, r.index);
    }
  }

  lemma AloneRows(b: Book, a: Action, rows: map<RowId, Note>)
    requires OnlyNoted(b, a, rows) && Fresh(b, a.group)
    ensures rows == b.rows + NewRows(b, a.group, a.targets, a.target)
  {
    var applied := b.rows + NewRows(b, a.group, a.targets, a.target);
    forall r ensures (r in rows <==> r in applied) && (r in rows ==> rows[r] == applied[r]) {
      AloneRow(b, a, rows, r);
    }
  }

  /** If nothing else happens, the statements together do what the action does in one step. */
  lemma AloneIsApplied(desks: seq<Desk>, moves: seq<Move>, g: nat)
    requires IsRun(desks, moves) && desks[|moves|].passes.Keys == {g} && Finished(desks[|moves|].passes[g])
    ensures var b, a := desks[0].book, desks[|moves|].passes[g].action;
      && (forall f :: f in a.targets ==> f in b.statuses) && a.group == g && Fresh(b, g)
      && desks[|moves|].book == Applied(b, g, a.targets, a.target)
  {
    var b, d := desks[0].book, desks[|moves|];
    var t := d.passes[g];
    RunsAreKept(desks, moves, |moves|);
    OthersAreKept(desks, moves, |moves|);
    assert PassKept(d, b.statuses.Keys, g);
    FinishedIsWhole(t);
    forall f | f in b.statuses
      ensures f in t.seen && f in d.book.statuses
      ensures f in t.action.targets ==> t.seen[f] == b.statuses[f] && d.book.statuses[f] == t.action.target
      ensures f !in t.action.targets ==> d.book.statuses[f] == b.statuses[f]
    {
      PartGivenBack(d, b.statuses, g, f);
      if f in t.action.targets {
        assert Sole(d, g, f);
        SoleOutcome(d, b.statuses, g, f);
      }
    }
    SeenAsNoted(d.book.rows, t.seen, b.statuses, t.action);
    AloneRows(b, t.action, d.book.rows);
    assert d.book.statuses == AppliedStatuses(b.statuses, t.action.targets, t.action.target);
  }

  lemma SeenAsNoted(rows: map<RowId, Note>, seen: map<Id, FindingStatus>, before: map<Id, FindingStatus>, a: Action)
    requires Noted(rows, seen, a) && seen.Keys == before.Keys
    requires forall f :: f in a.targets && f in seen && f in before ==> seen[f] == before[f]
    ensures Noted(rows, before, a)
  {
    assert forall i :: 0 <= i < |a.targets| ==> a.targets[i] in a.targets;
  }

  lemma PartPassed(t: Pass, f: Id)
    requires Known(t)
    ensures Passed(t, f) <==> f in t.action.targets[..t.done] || (t.written && f == t.action.targets[t.done])
    ensures t.written ==> t.action.targets[t.done] !in t.action.targets[..t.done]
    ensures f in t.action.targets[..t.done] ==> f in t.action.targets
  {
    if t.written {
      assert t.action.targets[..t.done + 1] == t.action.targets[..t.done] + [t.action.targets[t.done]];
    }
  }

  /** What an undo makes of one finding when only one action has begun. */
  lemma PartGivenBack(d: Desk, initial: map<Id, FindingStatus>, g: nat, f: Id)
    requires Kept(d, initial) && d.passes.Keys == {g} && f in initial && Known(d.passes[g])
    ensures var t := d.passes[g];
      && f in t.seen && f in d.book.statuses
      && (f in t.action.targets[..t.done] ==> t.seen[f] == initial[f])
      && (f !in t.action.targets[..t.done] ==>
            (d.book.statuses[f] == initial[f] <==> !(t.written && f == t.action.targets[t.done])))
  {
    var t := d.passes[g];
    assert PassKept(d, initial.Keys, g);
    PartPassed(t, f);
    if f in t.action.targets {
      assert Sole(d, g, f);
      SoleOutcome(d, initial, g, f);
    } else {
      assert Free(d, f);
    }
  }

  /**
    * An action that ended part way, undone, leaves every finding as it was before if and only if
    * it did not end between an UPDATE and the INSERT that notes it.
    */
  lemma UndoOfPartIff(desks: seq<Desk>, moves: seq<Move>, g: nat, after: Book)
    requires IsRun(desks, moves) && desks[|moves|].passes.Keys == {g} && desks[|moves|].passes[g].done > 0
    requires UndoneTo(desks[|moves|].book, RowId(g, 0), after)
    ensures after.statuses == desks[0].book.statuses <==> !desks[|moves|].passes[g].written
  {
    var initial, d := desks[0].book.statuses, desks[|moves|];
    var t := d.passes[g];
    RunsAreKept(desks, moves, |moves|);
    assert PassKept(d, initial.Keys, g);
    UndoGivesBackWhatWasRead(desks, moves, |moves|, g, after);
    forall f | f in initial
      ensures f in after.statuses
      ensures after.statuses[f] == initial[f] <==> !(t.written && f == t.action.targets[t.done])
    {
      PartGivenBack(d, initial, g, f);
      PartPassed(t, f);
    }
    if t.written {
      assert t.action.targets[t.done] in t.action.targets;
      assert t.action.targets[t.done] in initial;
    }
  }

  // ----- Two actions that both read before either writes -----

  const REVIEW: Action := Action(10, [1], Reviewed)
  const DISMISSAL: Action := Action(11, [1], Dismissed)

  function Of(status: FindingStatus): map<Id, FindingStatus> {
    map[1 := status]
  }

  function Reading(a: Action, done: nat, written: bool): Pass {
    Pass(a, Of(NewFinding), done, written)
  }

  function NoteOf(a: Action): map<RowId, Note> {
    map[RowId(a.group, 0) := Note(1, NewFinding, a.target, false)]
  }

  function ExampleMoves(): seq<Move> {
    [Begin(REVIEW), Begin(DISMISSAL), Next(10), Next(10), Next(11), Next(11)]
  }

  function ExampleDesk(k: nat): Desk {
    var status := if k < 3 then NewFinding else if k < 5 then Reviewed else Dismissed;
    var rows := (if k < 4 then map[] else NoteOf(REVIEW)) + (if k < 6 then map[] else NoteOf(DISMISSAL));
    var first := Reading(REVIEW, if k < 4 then 0 else 1, k == 3);
    var second := Reading(DISMISSAL, if k < 6 then 0 else 1, k == 5);
    Desk(Book(Of(status), rows), if k == 0 then map[] else if k == 1 then map[10 := first]
      else map[10 := first, 11 := second])
  }

  lemma ExampleStep(k: nat)
    requires k < 6
    ensures Step(ExampleDesk(k), ExampleMoves()[k], ExampleDesk(k + 1))
  {
    if k == 0 {
      assert ExampleDesk(0).passes[10 := Reading(REVIEW, 0, false)] == ExampleDesk(1).passes;
    } else if k == 1 {
      assert ExampleDesk(1).passes[11 := Reading(DISMISSAL, 0, false)] == ExampleDesk(2).passes;
    } else if k < 4 {
      ExampleNext(k, 10, REVIEW, k == 3);
    } else {
      ExampleNext(k, 11, DISMISSAL, k == 5);
    }
  }

  lemma ExampleNext(k: nat, g: nat, a: Action, written: bool)
    requires 2 <= k < 6 && a == (if k < 4 then REVIEW else DISMISSAL) && g == a.group && written == (k == 3 || k == 5)
    ensures Step(ExampleDesk(k), Next(g), ExampleDesk(k + 1))
  {
    var d, e := ExampleDesk(k), ExampleDesk(k + 1);
    assert d.passes[g] == Reading(a, 0, written);
    var (b, t) := Execute(d.book, d.passes[g]);
    assert t == e.passes[g];
    assert d.passes[g := t] == e.passes;
    assert b == e.book;
  }

  lemma ExampleRun() returns (desks: seq<Desk>, moves: seq<Move>)
    ensures IsRun(desks, moves) && |moves| == 6 && desks[0] == ExampleDesk(0) && desks[6] == ExampleDesk(6)
    ensures BothFinished(ExampleDesk(6), 10, 11)
  {
    moves := ExampleMoves();
    desks := seq(7, k requires 0 <= k < 7 => ExampleDesk(k));
    forall k: nat | k < 6 ensures StepAt(desks, moves, k) {
      ExampleStep(k);
    }
  }

  /** Then undoing the second does not leave what the first alone gives: the finding is new, not reviewed. */
  lemma BothReadFirst(after: Book) returns (desks: seq<Desk>, moves: seq<Move>)
    requires UndoneTo(ExampleDesk(6).book, RowId(11, 0), after)
    ensures IsRun(desks, moves) && BothFinished(desks[|moves|], 10, 11) && desks[|moves|] == ExampleDesk(6)
    ensures desks[0].book.statuses == Of(NewFinding) && after.statuses == Of(NewFinding)
    ensures AppliedStatuses(desks[0].book.statuses, [1], Reviewed) == Of(Reviewed)
  {
    desks, moves := ExampleRun();
    UndoGivesBackWhatWasRead(desks, moves, 6, 11, after);
    OneFindingBack(after.statuses, ExampleDesk(6).passes[11], ExampleDesk(6).book.statuses);
  }

  lemma OneFindingBack(after: map<Id, FindingStatus>, t: Pass, before: map<Id, FindingStatus>)
    requires t.action.targets == [1] && t.done == 1 && t.seen == Of(NewFinding) && after.Keys == before.Keys == {1}
    requires forall f :: f in before ==> after[f] == if f in t.action.targets[..t.done] then t.seen[f] else before[f]
    ensures after == Of(NewFinding)
  {
    assert t.action.targets[..t.done] == [1];
    assert 1 in before && after[1] == NewFinding;
  }
}
