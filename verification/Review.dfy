/** api/app.py: review actions on findings, and undoing them. */
module Review {
  import opened Collections
  import opened Wrappers
  import opened Ordering

  datatype FindingStatus = NewFinding | Reviewed | Dismissed | Exported

  /** `review_<hex>` is the row with index 0 of its group, `review_<hex>_<i>` the one with index i. */
  datatype RowId = RowId(group: nat, index: nat)

  datatype Note = Note(finding: Id, previous: FindingStatus, target: FindingStatus, undone: bool)

  datatype Book = Book(statuses: map<Id, FindingStatus>, rows: map<RowId, Note>)

  /** No group has two rows for one finding, and every row's finding exists. */
  ghost predicate Valid(b: Book) {
    && (forall r :: r in b.rows ==> b.rows[r].finding in b.statuses)
    && (forall r, q :: r in b.rows && q in b.rows && r.group == q.group && b.rows[r].finding == b.rows[q].finding ==>
      r == q)
  }

  /** No row has this group id: it is freshly generated. */
  ghost predicate Fresh(b: Book, group: nat) {
    forall r :: r in b.rows ==> r.group != group
  }

  // ----- Applying -----

  function AppliedStatuses(statuses: map<Id, FindingStatus>, targets: seq<Id>, target: FindingStatus)
    : map<Id, FindingStatus>
  {
    map f | f in statuses :: if f in targets then target else statuses[f]
  }

  function NoteFor(b: Book, finding: Id, target: FindingStatus): Note
    requires finding in b.statuses
  {
    Note(finding, b.statuses[finding], target, false)
  }

  function NewRows(b: Book, group: nat, targets: seq<Id>, target: FindingStatus): (rows: map<RowId, Note>)
    requires forall f :: f in targets ==> f in b.statuses
    ensures forall r :: r in rows <==> r.group == group && r.index < |targets|
    ensures forall i: nat :: i < |targets| ==>
      RowId(group, i) in rows && rows[RowId(group, i)] == NoteFor(b, targets[i], target)
  {
    if targets == [] then map[]
    else
      var last := |targets| - 1;
      assert targets[last] in targets;
      NewRows(b, group, targets[..last], target)[RowId(group, last) := NoteFor(b, targets[last], target)]
  }

  /** The book after a review action: the targets' statuses set, their previous ones noted. */
  function Applied(b: Book, group: nat, targets: seq<Id>, target: FindingStatus): Book
    requires forall f :: f in targets ==> f in b.statuses
  {
    Book(AppliedStatuses(b.statuses, targets, target), b.rows + NewRows(b, group, targets, target))
  }

  lemma ApplyKeepsValid(b: Book, group: nat, targets: seq<Id>, target: FindingStatus)
    requires Valid(b) && Fresh(b, group) && Ascending(targets) && forall f :: f in targets ==> f in b.statuses
    ensures Valid(Applied(b, group, targets, target))
  {
    var after := Applied(b, group, targets, target);
    forall r | r in after.rows
      ensures after.rows[r].finding in after.statuses
      ensures r.group == group ==> r.index < |targets| && after.rows[r] == NoteFor(b, targets[r.index], target)
      ensures r.group != group ==> r in b.rows && after.rows[r] == b.rows[r]
    {
      if r.group == group {
        assert r == RowId(group, r.index);
        assert targets[r.index] in targets;
      }
    }
  }

  // ----- Undoing -----

  /** `WHERE review_action_id = ? OR group_id = ?`: a group by its id, or one further row by its own. */
  predicate Matches(r: RowId, id: RowId) {
    r == id || (id.index == 0 && r.group == id.group)
  }

  function Matching(b: Book, id: RowId): set<RowId> {
    set r | r in b.rows && Matches(r, id)
  }

  ghost predicate IsUndone(b: Book, id: RowId) {
    forall r :: r in b.rows && Matches(r, id) ==> b.rows[r].undone
  }

  /** The status that undoing `id` gives a finding: the one noted for it, if there is one. */
  ghost predicate RestoredAt(b: Book, id: RowId, after: map<Id, FindingStatus>, f: Id)
    requires f in b.statuses && f in after
  {
    && (forall r :: r in b.rows && Matches(r, id) && b.rows[r].finding == f ==> after[f] == b.rows[r].previous)
    && ((forall r :: r in b.rows && Matches(r, id) ==> b.rows[r].finding != f) ==> after[f] == b.statuses[f])
  }

  ghost predicate Restored(b: Book, id: RowId, after: map<Id, FindingStatus>) {
    after.Keys == b.statuses.Keys && forall f :: f in b.statuses ==> RestoredAt(b, id, after, f)
  }

  function MarkedUndone(rows: map<RowId, Note>, id: RowId): map<RowId, Note> {
    map r | r in rows :: if Matches(r, id) then rows[r].(undone := true) else rows[r]
  }

  /** `after` is the book once `id` was undone; an undone group is left alone. */
  ghost predicate UndoneTo(b: Book, id: RowId, after: Book) {
    if IsUndone(b, id) then after == b
    else Restored(b, id, after.statuses) && after.rows == MarkedUndone(b.rows, id)
  }

  lemma UndoKeepsValid(b: Book, id: RowId, after: Book)
    requires Valid(b) && UndoneTo(b, id, after)
    ensures Valid(after)
  {
  }

  lemma UndoKeepsValidAlways(b: Book, id: RowId)
    requires Valid(b)
    ensures forall after :: UndoneTo(b, id, after) ==> Valid(after)
  {
    forall after | UndoneTo(b, id, after) ensures Valid(after) {
      UndoKeepsValid(b, id, after);
    }
  }

  /** Undoing what has been undone changes nothing. */
  lemma UndoTwiceIsUndoOnce(b: Book, id: RowId, once: Book, twice: Book)
    requires UndoneTo(b, id, once) && UndoneTo(once, id, twice)
    ensures twice == once
  {
    if !IsUndone(b, id) {
      assert IsUndone(once, id);
    }
  }

  // ----- Last in, first out -----

  datatype Action = Action(group: nat, targets: seq<Id>, target: FindingStatus)

  /** Every finding's status once the actions were applied in turn. */
  function StatusesAfter(statuses: map<Id, FindingStatus>, actions: seq<Action>): (after: map<Id, FindingStatus>)
    ensures after.Keys == statuses.Keys
  {
    if actions == [] then statuses
    else
      var last := actions[|actions| - 1];
      AppliedStatuses(StatusesAfter(statuses, actions[..|actions| - 1]), last.targets, last.target)
  }

  /** The rows of an action, not undone, note the statuses from before it. */
  ghost predicate Noted(rows: map<RowId, Note>, before: map<Id, FindingStatus>, a: Action) {
    && (forall f :: f in a.targets ==> f in before)
    && (forall r :: r in rows && r.group == a.group ==> r.index < |a.targets|)
    && (forall i: nat :: i < |a.targets| ==>
          RowId(a.group, i) in rows
            && rows[RowId(a.group, i)] == Note(a.targets[i], before[a.targets[i]], a.target, false))
  }

  ghost predicate NotedAt(b: Book, initial: map<Id, FindingStatus>, actions: seq<Action>, k: nat)
    requires k < |actions|
  {
    actions[k].targets != [] && Noted(b.rows, StatusesAfter(initial, actions[..k]), actions[k])
  }

  /** The book holds these actions, none of them undone, on top of the statuses `initial`. */
  ghost predicate Holds(b: Book, initial: map<Id, FindingStatus>, actions: seq<Action>) {
    && b.statuses == StatusesAfter(initial, actions)
    && (forall k: nat :: k < |actions| ==> NotedAt(b, initial, actions, k))
    && (forall i, j :: 0 <= i < j < |actions| ==> actions[i].group != actions[j].group)
  }

  /** Applying an action adds it to what the book holds. */
  lemma ApplyPushes(b: Book, initial: map<Id, FindingStatus>, actions: seq<Action>, a: Action)
    requires Holds(b, initial, actions)
    requires a.targets != [] && Fresh(b, a.group) && forall f :: f in a.targets ==> f in b.statuses
    ensures Holds(Applied(b, a.group, a.targets, a.target), initial, actions + [a])
  {
    var after, longer := Applied(b, a.group, a.targets, a.target), actions + [a];
    assert longer[..|actions|] == actions;
    ApplyNotes(b, a);
    forall k: nat | k < |longer| ensures NotedAt(after, initial, longer, k) {
      if k < |actions| {
        PushKeepsNoted(b, initial, actions, a, k);
      }
    }
    forall k | 0 <= k < |actions| ensures actions[k].group != a.group {
      PushKeepsNoted(b, initial, actions, a, k);
    }
  }

  lemma PushKeepsNoted(b: Book, initial: map<Id, FindingStatus>, actions: seq<Action>, a: Action, k: nat)
    requires k < |actions| && NotedAt(b, initial, actions, k)
    requires Fresh(b, a.group) && forall f :: f in a.targets ==> f in b.statuses
    ensures actions[k].group != a.group
    ensures NotedAt(Applied(b, a.group, a.targets, a.target), initial, actions + [a], k)
  {
    assert RowId(actions[k].group, 0) in b.rows;
    assert (actions + [a])[..k] == actions[..k];
    ApplyKeepsNotes(b, a, StatusesAfter(initial, actions[..k]), actions[k]);
  }

  /** Undoing a group gives its targets their noted statuses back, and nothing else. */
  lemma UndoGivesBack(b: Book, before: map<Id, FindingStatus>, a: Action, after: Book)
    requires Noted(b.rows, before, a) && a.targets != [] && before.Keys == b.statuses.Keys
    requires UndoneTo(b, RowId(a.group, 0), after)
    ensures after.statuses.Keys == b.statuses.Keys
    ensures forall f :: f in b.statuses ==> after.statuses[f] == if f in a.targets then before[f] else b.statuses[f]
    ensures after.rows == MarkedUndone(b.rows, RowId(a.group, 0))
  {
    var id := RowId(a.group, 0);
    assert id in b.rows && Matches(id, id);
    forall f | f in b.statuses
      ensures after.statuses[f] == if f in a.targets then before[f] else b.statuses[f]
    {
      assert RestoredAt(b, id, after.statuses, f);
      if f in a.targets {
        var i: nat :| i < |a.targets| && a.targets[i] == f;
        assert RowId(a.group, i) in b.rows && Matches(RowId(a.group, i), id);
      } else {
        forall r | r in b.rows && Matches(r, id) ensures b.rows[r].finding != f {
          assert r == RowId(a.group, r.index);
          assert a.targets[r.index] in a.targets;
        }
      }
    }
  }

  lemma ApplyNotes(b: Book, a: Action)
    requires Fresh(b, a.group) && forall f :: f in a.targets ==> f in b.statuses
    ensures Noted(Applied(b, a.group, a.targets, a.target).rows, b.statuses, a)
  {
  }

  lemma ApplyKeepsNotes(b: Book, c: Action, before: map<Id, FindingStatus>, a: Action)
    requires Noted(b.rows, before, a) && c.group != a.group && forall f :: f in c.targets ==> f in b.statuses
    ensures Noted(Applied(b, c.group, c.targets, c.target).rows, before, a)
  {
  }

  lemma OtherNotesStay(rows: map<RowId, Note>, before: map<Id, FindingStatus>, a: Action, group: nat)
    requires Noted(rows, before, a) && group != a.group
    ensures Noted(MarkedUndone(rows, RowId(group, 0)), before, a)
  {
  }

  /** Undoing the last action takes it off again, and nothing else. */
  lemma UndoPops(b: Book, initial: map<Id, FindingStatus>, actions: seq<Action>, after: Book)
    requires actions != [] && Holds(b, initial, actions)
    requires UndoneTo(b, RowId(actions[|actions| - 1].group, 0), after)
    ensures Holds(after, initial, actions[..|actions| - 1])
  {
    var n := |actions| - 1;
    var fewer := actions[..n];
    var before := StatusesAfter(initial, fewer);
    assert NotedAt(b, initial, actions, n);
    UndoGivesBack(b, before, actions[n], after);
    assert after.statuses == before;
    forall k: nat | k < |fewer| ensures NotedAt(after, initial, fewer, k) {
      assert NotedAt(b, initial, actions, k) && actions[..k] == fewer[..k];
      OtherNotesStay(b.rows, StatusesAfter(initial, fewer[..k]), actions[k], actions[n].group);
    }
  }

  /** A history of the book: actions applied, and groups undone, last in first out. */
  datatype Event = Apply(action: Action) | UndoLast

  /** The actions that are applied and not undone. */
  function Stack(events: seq<Event>): seq<Action> {
    if events == [] then []
    else
      var before := Stack(events[..|events| - 1]);
      match events[|events| - 1]
      case Apply(a) => before + [a]
      case UndoLast => if before == [] then [] else before[..|before| - 1]
  }

  ghost predicate EventAt(books: seq<Book>, events: seq<Event>, i: nat)
    requires |books| == |events| + 1 && i < |events|
  {
    var b, after, stack := books[i], books[i + 1], Stack(events[..i]);
    match events[i]
    case Apply(a) =>
      && a.targets != [] && Fresh(b, a.group) && (forall f :: f in a.targets ==> f in b.statuses)
      && after == Applied(b, a.group, a.targets, a.target)
    case UndoLast => stack != [] && UndoneTo(b, RowId(stack[|stack| - 1].group, 0), after)
  }

  /**
    * Over any history of non-empty actions and last-in first-out undos, the statuses are those
    * that the actions still applied give; once all are undone, every status is as it was.
    */
  lemma {:induction false} UndoingRestores(books: seq<Book>, events: seq<Event>, k: nat)
    requires |books| == |events| + 1 && k <= |events|
    requires forall i: nat :: i < |events| ==> EventAt(books, events, i)
    ensures Holds(books[k], books[0].statuses, Stack(events[..k]))
    ensures Stack(events[..k]) == [] ==> books[k].statuses == books[0].statuses
    decreases k
  {
    if k > 0 {
      UndoingRestores(books, events, k - 1);
      assert EventAt(books, events, k - 1);
      OneEventMore(books, books[0].statuses, events, k - 1);
    }
  }

  lemma OneEventMore(books: seq<Book>, initial: map<Id, FindingStatus>, events: seq<Event>, k: nat)
    requires |books| == |events| + 1 && k < |events| && EventAt(books, events, k)
    requires Holds(books[k], initial, Stack(events[..k]))
    ensures Holds(books[k + 1], initial, Stack(events[..k + 1]))
  {
    assert events[..k + 1][..k] == events[..k];
    match events[k]
    case Apply(a) => ApplyPushes(books[k], initial, Stack(events[..k]), a);
    case UndoLast => UndoPops(books[k], initial, Stack(events[..k]), books[k + 1]);
  }

  /**
    * Out of order it may not: undoing the first of two actions leaves what the second alone
    * would have given if and only if every finding of both already had the second's target.
    */
  lemma OutOfOrderIff(b: Book, a: Action, first: Book, c: Action, both: Book, after: Book)
    requires a.targets != [] && a.group != c.group && Fresh(b, a.group)
    requires forall f :: f in a.targets || f in c.targets ==> f in b.statuses
    requires first == Applied(b, a.group, a.targets, a.target) && both == Applied(first, c.group, c.targets, c.target)
    requires UndoneTo(both, RowId(a.group, 0), after)
    ensures after.statuses == AppliedStatuses(b.statuses, c.targets, c.target) <==>
            forall f :: f in a.targets && f in c.targets ==> b.statuses[f] == c.target
  {
    UndoOutOfOrder(b, a, first, c, both, after);
    SameIff(b.statuses, a, c, after.statuses);
  }

  lemma UndoOutOfOrder(b: Book, a: Action, first: Book, c: Action, both: Book, after: Book)
    requires a.targets != [] && a.group != c.group && Fresh(b, a.group)
    requires forall f :: f in a.targets || f in c.targets ==> f in b.statuses
    requires first == Applied(b, a.group, a.targets, a.target) && both == Applied(first, c.group, c.targets, c.target)
    requires UndoneTo(both, RowId(a.group, 0), after)
    ensures after.statuses.Keys == b.statuses.Keys
    ensures forall f :: f in b.statuses ==>
      after.statuses[f] == if f in a.targets then b.statuses[f] else both.statuses[f]
  {
    NotesSurvive(b, a, first, c, both);
    UndoGivesBack(both, b.statuses, a, after);
  }

  lemma NotesSurvive(b: Book, a: Action, first: Book, c: Action, both: Book)
    requires a.group != c.group && Fresh(b, a.group)
    requires forall f :: f in a.targets || f in c.targets ==> f in b.statuses
    requires first == Applied(b, a.group, a.targets, a.target) && both == Applied(first, c.group, c.targets, c.target)
    ensures Noted(both.rows, b.statuses, a) && both.statuses.Keys == b.statuses.Keys
  {
    ApplyNotes(b, a);
    ApplyKeepsNotes(first, c, b.statuses, a);
  }

  lemma SameIff(before: map<Id, FindingStatus>, a: Action, c: Action, after: map<Id, FindingStatus>)
    requires after.Keys == before.Keys && forall f :: f in a.targets || f in c.targets ==> f in before
    requires var both := AppliedStatuses(AppliedStatuses(before, a.targets, a.target), c.targets, c.target);
      forall f :: f in before ==> after[f] == if f in a.targets then before[f] else both[f]
    ensures after == AppliedStatuses(before, c.targets, c.target) <==> forall f :: f in a.targets && f in c.targets ==>
      before[f] == c.target
  {
    var alone := AppliedStatuses(before, c.targets, c.target);
    if after == alone {
      forall f | f in a.targets && f in c.targets ensures before[f] == c.target {
        assert f in before && alone[f] == c.target;
      }
    }
  }

  // ----- The tables -----

  datatype ReviewError = Forbidden | BadRequest | NotFound

  /** A saved query decides on a finding by its columns, of which actions change the status. */
  datatype Request = Request(findingIds: seq<Id>, savedQuery: Option<(Id, FindingStatus) -> bool>)

  datatype UndoResult = Undone(restored: seq<Id>) | AlreadyUndone

  class ReviewDesk {
    const enabled: bool
    var statuses: map<Id, FindingStatus>
    var rows: map<RowId, Note>

    ghost function Contents(): Book
      reads this
    {
      Book(statuses, rows)
    }

    constructor (enabled: bool, statuses: map<Id, FindingStatus>)
      ensures Valid(Contents()) && Contents() == Book(statuses, map[]) && this.enabled == enabled
    {
      this.enabled, this.statuses, rows := enabled, statuses, map[];
    }

    /** `_review_target_ids`, without its order: the ids given, or those the query selects. */
    function Targets(request: Request): (r: Result<set<Id>, ReviewError>)
      reads this
    {
      var explicit := Elements(request.findingIds);
      if explicit != {} && request.savedQuery.Some? then Err(BadRequest)
      else if explicit != {} then Ok(explicit)
      else match request.savedQuery
        case None => Err(BadRequest)
        case Some(matching) => Ok(set f | f in statuses && matching(f, statuses[f]))
    }

    /** `_apply_review_action` with no other action in between: the targets, in the order of their ids. */
    method ApplyAction(request: Request, group: nat, target: FindingStatus)
      returns (r: Result<seq<Id>, ReviewError>, ghost targets: seq<Id>)
      requires Valid(Contents()) && Fresh(Contents(), group)
      modifies this
      ensures Valid(Contents())
      ensures r.Ok? <==> enabled && old(Targets(request)).Ok? && old(Targets(request)).value <= old(statuses).Keys
      ensures r == Err(Forbidden) <==> !enabled
      ensures r == Err(BadRequest) <==>
        enabled && (if request.findingIds == [] then request.savedQuery.None? else request.savedQuery.Some?)
      ensures r == Err(NotFound) <==>
        enabled && request.savedQuery.None? && request.findingIds != []
        && exists f :: f in request.findingIds && f !in old(statuses)
      ensures r.Ok? ==> forall f :: f in targets <==>
        if request.findingIds != [] then f in request.findingIds
        else f in old(statuses) && request.savedQuery.value(f, old(statuses)[f])
      ensures r.Err? ==> Contents() == old(Contents())
      ensures r.Ok? ==>
        && Sorts(targets, old(Targets(request)).value)
        && Contents() == Applied(old(Contents()), group, targets, target)
        && (forall f :: f in r.value <==> f in targets && old(statuses)[f] != target)
      ensures r.Ok? ==>
        && statuses.Keys == old(statuses).Keys
        && (forall f :: f in statuses ==> statuses[f] == if f in targets then target else old(statuses)[f])
        && (forall i: nat :: i < |targets| ==>
              && RowId(group, i) in rows
              && rows[RowId(group, i)] == Note(targets[i], old(statuses)[targets[i]], target, false))
        && (forall q :: q in old(rows) ==> q in rows && rows[q] == old(rows)[q])
    {
      targets := [];
      FirstIsElement(request.findingIds);
      if !enabled {
        return Err(Forbidden), targets;
      }
      var found := Targets(request);
      if found.Err? {
        return Err(found.error), targets;
      }
      if !(found.value <= statuses.Keys) {
        return Err(NotFound), targets;
      }
      var list := Sorted(found.value);
      targets := list;
      ApplyKeepsValid(Contents(), group, list, target);
      var after, changed := Record(Book(statuses, rows), list, group, target);
      statuses, rows := after.statuses, after.rows;
      r := Ok(changed);
    }

    /** `_undo_review_action` with no other action in between: the rows it finds. */
    method Undo(id: RowId) returns (r: Result<UndoResult, ReviewError>)
      requires Valid(Contents())
      modifies this
      ensures Valid(Contents())
      ensures r.Err? <==> Matching(old(Contents()), id) == {}
      ensures UndoneTo(old(Contents()), id, Contents())
      ensures r == Ok(AlreadyUndone) <==> Matching(old(Contents()), id) != {} && IsUndone(old(Contents()), id)
      ensures r.Ok? && r.value.Undone? ==>
        && statuses.Keys == old(statuses).Keys && rows.Keys == old(rows).Keys
        && (forall q :: q in rows && (q == id || (id.index == 0 && q.group == id.group)) ==>
              rows[q] == old(rows)[q].(undone := true) && statuses[rows[q].finding] == old(rows)[q].previous)
        && (forall q :: q in rows && !(q == id || (id.index == 0 && q.group == id.group)) ==> rows[q] == old(rows)[q])
    {
      ghost var before := Contents();
      UndoKeepsValidAlways(before, id);
      var found := Matching(Book(statuses, rows), id);
      assert forall x :: x in rows && Matches(x, id) ==> x in found;
      if found == {} {
        return Err(NotFound);
      }
      if forall x :: x in found ==> rows[x].undone {
        return Ok(AlreadyUndone);
      }
      var after, restored := Restore(Book(statuses, rows), id, found);
      statuses, rows := after.statuses, after.rows;
      r := Ok(Undone(restored));
    }
  }

  /** The UPDATEs and INSERTs of one review action, one after the other. */
  method Record(before: Book, list: seq<Id>, group: nat, target: FindingStatus) returns (b: Book, changed: seq<Id>)
    requires Ascending(list) && forall f :: f in list ==> f in before.statuses
    ensures b == Applied(before, group, list, target)
    ensures forall f :: f in changed <==> f in list && before.statuses[f] != target
  {
    b, changed := before, [];
    ApplyingStarts(before, group, list, target);
    for i := 0 to |list|
      invariant Applying(before, group, list[..i], target, b, changed)
    {
      var f := list[i];
      NextInOrder(list, i);
      ApplyOne(before, group, list[..i], f, target, b, changed);
      var previous := b.statuses[f];
      SameUpdate(b.statuses, f);
      if previous != target {
        b := b.(statuses := b.statuses[f := target]);
        changed := changed + [f];
      }
      b := b.(rows := b.rows[RowId(group, i) := Note(f, previous, target, false)]);
    }
    assert list[..|list|] == list;
    forall f ensures f in changed <==> f in list && before.statuses[f] != target {
      ChangedAre(before.statuses, list, target, f);
    }
  }

  /** The UPDATEs of one undo, one after the other. */
  method Restore(before: Book, id: RowId, found: set<RowId>) returns (b: Book, restored: seq<Id>)
    requires Valid(before) && found == Matching(before, id) && !IsUndone(before, id)
    ensures UndoneTo(before, id, b)
    ensures forall f :: f in restored <==> exists r :: r in found && before.rows[r].finding == f
  {
    b, restored := before, [];
    var todo := found;
    ghost var touched: map<Id, RowId> := map[];
    while todo != {}
      invariant todo <= found && UndoneSoFar(before, found - todo, touched)
      invariant Undoing(before, touched, b)
      invariant forall f :: f in restored <==> f in touched
      decreases |todo|
    {
      var x :| x in todo;
      NotTouchedYet(before, id, found - todo, touched, x);
      assert (found - todo) + {x} == found - (todo - {x});
      UndoOne(before, touched, b, x);
      var note := b.rows[x];
      touched := touched[note.finding := x];
      restored := restored + [note.finding];
      b := Book(b.statuses[note.finding := note.previous], b.rows[x := note.(undone := true)]);
      todo := todo - {x};
    }
    assert found - todo == found;
    UndoingEnds(before, id, touched, b);
  }

  /** These targets have been dealt with. */
  ghost predicate Applying(before: Book, group: nat, done: seq<Id>, target: FindingStatus, b: Book, changed: seq<Id>) {
    && (forall f :: f in done ==> f in before.statuses)
    && b == Applied(before, group, done, target)
    && changed == ChangedBy(before.statuses, done, target)
  }

  /** The targets whose status is another one, in order. */
  function ChangedBy(statuses: map<Id, FindingStatus>, targets: seq<Id>, target: FindingStatus): seq<Id> {
    if targets == [] then []
    else
      var last := targets[|targets| - 1];
      ChangedBy(statuses, targets[..|targets| - 1], target)
        + if last in statuses && statuses[last] != target then [last] else []
  }

  lemma {:induction false} ChangedAre(statuses: map<Id, FindingStatus>, targets: seq<Id>, target: FindingStatus, f: Id)
    ensures f in ChangedBy(statuses, targets, target) <==> f in targets && f in statuses && statuses[f] != target
    decreases |targets|
  {
    if targets != [] {
      var last := |targets| - 1;
      ChangedAre(statuses, targets[..last], target, f);
      assert f in targets <==> f in targets[..last] || f == targets[last];
    }
  }

  lemma ApplyingStarts(before: Book, group: nat, list: seq<Id>, target: FindingStatus)
    ensures Applying(before, group, list[..0], target, before, [])
  {
    assert list[..0] == [];
    assert AppliedStatuses(before.statuses, [], target) == before.statuses;
    assert before.rows + map[] == before.rows;
  }

  lemma SameUpdate(statuses: map<Id, FindingStatus>, f: Id)
    requires f in statuses
    ensures statuses[f := statuses[f]] == statuses
  {
  }

  lemma AppliedOneMore(before: Book, group: nat, list: seq<Id>, f: Id, target: FindingStatus)
    requires f in before.statuses && forall x :: x in list ==> x in before.statuses
    ensures var b := Applied(before, group, list, target);
      Applied(before, group, list + [f], target) ==
        Book(b.statuses[f := target], b.rows[RowId(group, |list|) := NoteFor(before, f, target)])
  {
    assert AppliedStatuses(before.statuses, list + [f], target) ==
      AppliedStatuses(before.statuses, list, target)[f := target];
    RowsOneMore(before, group, list, f, target);
    RowsUpdate(before.rows, NewRows(before, group, list, target), RowId(group, |list|), NoteFor(before, f, target));
  }

  lemma ApplyOne(before: Book, group: nat, done: seq<Id>, f: Id, target: FindingStatus, b: Book, changed: seq<Id>)
    requires Applying(before, group, done, target, b, changed) && f in before.statuses && f !in done
    ensures f in b.statuses && b.statuses[f] == before.statuses[f]
    ensures var previous := before.statuses[f];
      Applying(before, group, done + [f], target,
               Book(b.statuses[f := target], b.rows[RowId(group, |done|) := Note(f, previous, target, false)]),
               if previous != target then changed + [f] else changed)
  {
    StatusUntouched(before, group, done, f, target);
    AppliedOneMore(before, group, done, f, target);
    ChangedOneMore(before.statuses, done, f, target);
  }

  lemma StatusUntouched(before: Book, group: nat, done: seq<Id>, f: Id, target: FindingStatus)
    requires f in before.statuses && f !in done && forall x :: x in done ==> x in before.statuses
    ensures var b := Applied(before, group, done, target);
      f in b.statuses && b.statuses[f] == before.statuses[f]
  {
  }

  lemma ChangedOneMore(statuses: map<Id, FindingStatus>, done: seq<Id>, f: Id, target: FindingStatus)
    requires f in statuses
    ensures ChangedBy(statuses, done + [f], target) ==
      ChangedBy(statuses, done, target) + if statuses[f] != target then [f] else []
  {
    assert (done + [f])[..|done|] == done;
  }

  lemma NextInOrder(list: seq<Id>, i: nat)
    requires i < |list| && Ascending(list)
    ensures list[i] in list && list[i] !in list[..i] && list[..i + 1] == list[..i] + [list[i]]
  {
  }

  lemma RowsUpdate(m: map<RowId, Note>, n: map<RowId, Note>, r: RowId, note: Note)
    ensures m + n[r := note] == (m + n)[r := note]
  {
  }

  lemma RowsOneMore(b: Book, group: nat, list: seq<Id>, f: Id, target: FindingStatus)
    requires f in b.statuses && forall x :: x in list ==> x in b.statuses
    ensures NewRows(b, group, list + [f], target) ==
      NewRows(b, group, list, target)[RowId(group, |list|) := NoteFor(b, f, target)]
  {
    assert (list + [f])[..|list|] == list;
  }

  /** The rows of `touched`, each under its finding, have been undone so far. */
  ghost predicate Undoing(b: Book, touched: map<Id, RowId>, now: Book) {
    && now.statuses.Keys == b.statuses.Keys && now.rows.Keys == b.rows.Keys
    && (forall f :: f in touched ==> touched[f] in b.rows && b.rows[touched[f]].finding == f)
    && (forall f :: f in b.statuses ==>
      now.statuses[f] == if f in touched then b.rows[touched[f]].previous else b.statuses[f])
    && (forall r :: r in b.rows ==>
      now.rows[r] == if InTouched(b, touched, r) then b.rows[r].(undone := true) else b.rows[r])
  }

  ghost predicate InTouched(b: Book, touched: map<Id, RowId>, r: RowId)
    requires r in b.rows
  {
    b.rows[r].finding in touched && touched[b.rows[r].finding] == r
  }

  lemma UndoOne(b: Book, touched: map<Id, RowId>, now: Book, x: RowId)
    requires Undoing(b, touched, now)
    requires x in b.rows && b.rows[x].finding !in touched && b.rows[x].finding in b.statuses
    ensures now.rows[x] == b.rows[x]
    ensures var note := b.rows[x];
      Undoing(b, touched[note.finding := x],
        Book(now.statuses[note.finding := note.previous], now.rows[x := note.(undone := true)]))
  {
  }

  ghost predicate UndoneSoFar(b: Book, done: set<RowId>, touched: map<Id, RowId>) {
    forall r :: r in b.rows ==> (InTouched(b, touched, r) <==> r in done)
  }

  /** No two rows found are about one finding. */
  lemma NotTouchedYet(b: Book, id: RowId, done: set<RowId>, touched: map<Id, RowId>, x: RowId)
    requires Valid(b) && x in b.rows && Matches(x, id) && x !in done && forall r :: r in done ==>
      r in b.rows && Matches(r, id)
    requires forall f :: f in touched ==> touched[f] in b.rows && b.rows[touched[f]].finding == f
    requires UndoneSoFar(b, done, touched)
    ensures b.rows[x].finding in b.statuses && b.rows[x].finding !in touched
    ensures UndoneSoFar(b, done + {x}, touched[b.rows[x].finding := x])
  {
    var f := b.rows[x].finding;
    if f in touched {
      assert InTouched(b, touched, touched[f]);
    }
    forall r | r in b.rows ensures InTouched(b, touched[f := x], r) <==> r in done + {x} {
      assert InTouched(b, touched, r) <==> r in done;
    }
  }

  lemma UndoingEnds(b: Book, id: RowId, touched: map<Id, RowId>, after: Book)
    requires Undoing(b, touched, after)
    requires UndoneSoFar(b, Matching(b, id), touched)
    ensures Restored(b, id, after.statuses) && after.rows == MarkedUndone(b.rows, id)
    ensures forall f :: f in touched <==> exists r :: r in Matching(b, id) && b.rows[r].finding == f
  {
    forall f ensures f in touched <==> exists r :: r in Matching(b, id) && b.rows[r].finding == f {
      if f in touched {
        assert InTouched(b, touched, touched[f]);
      }
      if r :| r in Matching(b, id) && b.rows[r].finding == f {
        assert InTouched(b, touched, r);
      }
    }
    forall f | f in b.statuses ensures RestoredAt(b, id, after.statuses, f) {
      if f in touched {
        assert InTouched(b, touched, touched[f]);
      }
    }
  }

  /** Out of order: a finding reviewed, then dismissed; undoing the review makes it new again, not dismissed. */
  method UndoneOutOfOrder() returns (desk: ReviewDesk)
    ensures fresh(desk) && Valid(desk.Contents()) && desk.statuses == map[1 := NewFinding]
  {
    desk := new ReviewDesk(true, map[1 := NewFinding]);
    ghost var b := desk.Contents();
    ApplyToOne(desk, Action(10, [1], Reviewed));
    ghost var first := desk.Contents();
    assert Fresh(first, 11);
    ApplyToOne(desk, Action(11, [1], Dismissed));
    ghost var both := desk.Contents();
    NotesSurvive(b, Action(10, [1], Reviewed), first, Action(11, [1], Dismissed), both);
    UndoReview(desk, both);
  }

  method UndoReview(desk: ReviewDesk, ghost both: Book)
    requires Valid(both) && desk.Contents() == both && both.statuses.Keys == {1}
    requires Noted(both.rows, map[1 := NewFinding], Action(10, [1], Reviewed))
    modifies desk
    ensures Valid(desk.Contents()) && desk.statuses == map[1 := NewFinding]
  {
    var undone := desk.Undo(RowId(10, 0));
    UndoGivesBack(both, map[1 := NewFinding], Action(10, [1], Reviewed), desk.Contents());
  }

  method ApplyToOne(desk: ReviewDesk, a: Action)
    requires desk.enabled && Valid(desk.Contents()) && Fresh(desk.Contents(), a.group)
    requires a.targets == [1] && 1 in desk.statuses
    modifies desk
    ensures Valid(desk.Contents())
    ensures desk.Contents() == Applied(old(desk.Contents()), a.group, a.targets, a.target)
  {
    assert Elements([1]) == {1};
    var r, targets := desk.ApplyAction(Request([1], None), a.group, a.target);
    OneTarget(targets);
  }

  lemma OneTarget(targets: seq<Id>)
    requires Sorts(targets, Elements([1]))
    ensures targets == [1]
  {
    AscendingIsUnique(targets, [1]);
  }
}
