/** api/app.py: paging through findings with a cursor, while the table changes. */
module FindingPages {
  import opened Wrappers
  import opened Keyset

  /** A row of the findings table; `createdAt` never changes. `text` stands for title and summary. */
  datatype Finding = Finding(createdAt: int, caseId: nat, findingType: nat, severity: nat, status: nat, text: string,
    systemNoise: bool)

  type Table = map<nat, Finding>

  datatype Params = Params(
    caseId: Option<nat>,
    findingType: Option<nat>,
    severity: Option<nat>,
    status: Option<nat>,
    like: Option<string -> bool>,
    includeSystemNoise: bool,
    limit: nat)

  predicate Asked(value: nat, wanted: Option<nat>) {
    wanted.None? || wanted.value == value
  }

  /** `_finding_where` */
  predicate Selected(f: Finding, params: Params) {
    && Asked(f.caseId, params.caseId) && Asked(f.findingType, params.findingType)
    && Asked(f.severity, params.severity) && Asked(f.status, params.status)
    && (params.like.Some? ==> params.like.value(f.text))
    && (f.systemNoise ==> params.includeSystemNoise)
  }

  /** A filter that is not given admits everything; noise is shown only when asked for. */
  lemma SelectedMeans(f: Finding, params: Params)
    ensures Selected(f, params) <==>
      && (params.caseId.Some? ==> f.caseId == params.caseId.value)
      && (params.findingType.Some? ==> f.findingType == params.findingType.value)
      && (params.severity.Some? ==> f.severity == params.severity.value)
      && (params.status.Some? ==> f.status == params.status.value)
      && (params.like.Some? ==> params.like.value(f.text))
      && (f.systemNoise ==> params.includeSystemNoise)
  {
  }

  predicate Past(cursor: Option<Key>, k: Key) {
    cursor.None? || Before(cursor.value, k)
  }

  function KeyOf(table: Table, id: nat): Key
    requires id in table
  {
    Key(table[id].createdAt, id)
  }

  predicate Matches(table: Table, params: Params, k: Key) {
    k.minor in table && KeyOf(table, k.minor) == k && Selected(table[k.minor], params)
  }

  /** The keys that one query's WHERE selects. */
  function Candidates(table: Table, params: Params, cursor: Option<Key>): (keys: set<Key>)
    ensures forall k :: k in keys <==> Matches(table, params, k) && Past(cursor, k)
  {
    set id | id in table && Selected(table[id], params) && Past(cursor, KeyOf(table, id)) :: KeyOf(table, id)
  }

  /** One answer: the next findings, and a cursor exactly when there are more. */
  ghost predicate IsAnswer(table: Table, params: Params, cursor: Option<Key>, page: seq<Key>, next: Option<Key>) {
    && IsPage(Candidates(table, params, cursor), params.limit, page)
    && (next.Some? <==> exists k :: k in Candidates(table, params, cursor) && k !in page)
    && (next.Some? ==> page != [] && next.value == page[|page| - 1])
  }

  /** `_query_findings` */
  method QueryFindings(table: Table, params: Params, cursor: Option<Key>) returns (page: seq<Key>, next: Option<Key>)
    requires params.limit >= 1
    ensures IsAnswer(table, params, cursor, page, next)
    ensures |page| <= params.limit
    ensures forall k :: k in page ==>
      && k.minor in table && table[k.minor].createdAt == k.major && Selected(table[k.minor], params)
      && (cursor.Some? ==>
            cursor.value.major < k.major || (cursor.value.major == k.major && cursor.value.minor < k.minor))
    ensures forall i, j :: 0 <= i < j < |page| ==>
      page[i].major < page[j].major || (page[i].major == page[j].major && page[i].minor < page[j].minor)
  {
    var candidates := Candidates(table, params, cursor);
    var rows := LeastKeys(candidates, params.limit + 1);
    ShorterPage(candidates, params.limit, rows);
    page, next := rows, None;
    if |rows| > params.limit {
      page := rows[..params.limit];
      next := Some(page[params.limit - 1]);
    }
  }

  // ----- A walk from page to page -----

  /** One request of a walk: the table it met, and the answer it got. */
  datatype Visit = Visit(table: Table, page: seq<Key>, next: Option<Key>)

  function CursorAt(visits: seq<Visit>, i: nat): Option<Key>
    requires i <= |visits|
  {
    if i == 0 then None else visits[i - 1].next
  }

  ghost predicate VisitAt(visits: seq<Visit>, params: Params, i: nat)
    requires i < |visits|
  {
    && IsAnswer(visits[i].table, params, CursorAt(visits, i), visits[i].page, visits[i].next)
    && (i > 0 ==> visits[i - 1].next.Some?)
  }

  /** Each request passes on the cursor of the one before; the table may change in between. */
  ghost predicate IsWalk(visits: seq<Visit>, params: Params) {
    forall i: nat :: i < |visits| ==> VisitAt(visits, params, i)
  }

  function Returned(visits: seq<Visit>): seq<Key> {
    if visits == [] then [] else Returned(visits[..|visits| - 1]) + visits[|visits| - 1].page
  }

  lemma ReturnedGrows(visits: seq<Visit>, i: nat)
    requires i < |visits|
    ensures Returned(visits[..i + 1]) == Returned(visits[..i]) + visits[i].page
  {
    assert visits[..i + 1][..i] == visits[..i];
  }

  /** Whatever a walk has returned lies at or before the next cursor. */
  ghost predicate UpTo(cursor: Option<Key>, k: Key) {
    cursor.Some? && !Before(cursor.value, k)
  }

  lemma PageStaysBehindCursor(
    table: Table, params: Params, cursor: Option<Key>, page: seq<Key>, next: Option<Key>, k: Key)
    requires IsAnswer(table, params, cursor, page, next) && next.Some? && k in page
    ensures UpTo(next, k)
  {
    var i :| 0 <= i < |page| && page[i] == k;
    assert i < |page| - 1 ==> Before(page[i], page[|page| - 1]);
  }

  /** A walk returns its keys in strictly ascending order, whatever happens to the table meanwhile. */
  lemma {:induction false} WalkAscends(visits: seq<Visit>, params: Params, n: nat)
    requires IsWalk(visits, params) && n <= |visits|
    ensures SortedKeys(Returned(visits[..n]))
    ensures n > 0 && CursorAt(visits, n).Some? ==> forall k :: k in Returned(visits[..n]) ==>
      UpTo(CursorAt(visits, n), k)
    decreases n
  {
    if n > 0 {
      var i := n - 1;
      WalkAscends(visits, params, i);
      ReturnedGrows(visits, i);
      assert VisitAt(visits, params, i);
      var before, visit := Returned(visits[..i]), visits[i];
      forall k | k in visit.page ensures Past(CursorAt(visits, i), k) {
        assert k in Candidates(visit.table, params, CursorAt(visits, i));
      }
      AscendingTogether(before, visit.page, CursorAt(visits, i));
      if visit.next.Some? {
        forall k | k in before + visit.page ensures UpTo(visit.next, k) {
          var last := visit.page[|visit.page| - 1];
          assert last in visit.page;
          if k in visit.page {
            PageStaysBehindCursor(visit.table, params, CursorAt(visits, i), visit.page, visit.next, k);
          }
        }
      }
    }
  }

  lemma AscendingTogether(a: seq<Key>, b: seq<Key>, cursor: Option<Key>)
    requires SortedKeys(a) && SortedKeys(b)
    requires forall k :: k in b ==> Past(cursor, k)
    requires a != [] ==> cursor.Some?
    requires forall k :: k in a ==> UpTo(cursor, k)
    ensures SortedKeys(a + b)
  {
    forall i, j | 0 <= i < j < |a + b| ensures Before((a + b)[i], (a + b)[j]) {
      if i < |a| <= j {
        assert a[i] in a && b[j - |a|] in b;
      }
    }
  }

  /** The `created_at` of a finding is the same in every table of the walk. */
  ghost predicate CreationIsFixed(visits: seq<Visit>) {
    forall i, j, id :: 0 <= i < |visits| && 0 <= j < |visits| && id in visits[i].table && id in visits[j].table ==>
                         visits[i].table[id].createdAt == visits[j].table[id].createdAt
  }

  lemma {:induction false} ReturnedFrom(visits: seq<Visit>, params: Params, n: nat, k: Key) returns (i: nat)
    requires IsWalk(visits, params) && n <= |visits| && k in Returned(visits[..n])
    ensures i < n && k in visits[i].page && Matches(visits[i].table, params, k)
    decreases n
  {
    i := 0;
    if n > 0 {
      ReturnedGrows(visits, n - 1);
      assert VisitAt(visits, params, n - 1);
      if k in visits[n - 1].page {
        assert k in Candidates(visits[n - 1].table, params, CursorAt(visits, n - 1));
        i := n - 1;
      } else {
        i := ReturnedFrom(visits, params, n - 1, k);
      }
    }
  }

  /** No finding is returned twice, however the table changes between the pages. */
  lemma NothingTwice(visits: seq<Visit>, params: Params, p: nat, q: nat)
    requires IsWalk(visits, params) && CreationIsFixed(visits)
    requires p < q < |Returned(visits)|
    ensures Returned(visits)[p].minor != Returned(visits)[q].minor
  {
    assert visits[..|visits|] == visits;
    WalkAscends(visits, params, |visits|);
    var a, b := Returned(visits)[p], Returned(visits)[q];
    assert Before(a, b);
    var i := ReturnedFrom(visits, params, |visits|, a);
    var j := ReturnedFrom(visits, params, |visits|, b);
  }

  /** A key that matched at every request so far was returned, or lies past the cursor. */
  lemma {:induction false} NothingMissedYet(visits: seq<Visit>, params: Params, k: Key, n: nat)
    requires IsWalk(visits, params) && n <= |visits|
    requires forall i :: 0 <= i < |visits| ==> Matches(visits[i].table, params, k)
    ensures k in Returned(visits[..n]) || (n > 0 && visits[n - 1].next.Some? && Past(CursorAt(visits, n), k)) || n == 0
    decreases n
  {
    if n > 0 {
      var i := n - 1;
      NothingMissedYet(visits, params, k, i);
      ReturnedGrows(visits, i);
      assert VisitAt(visits, params, i);
      if k !in Returned(visits[..i]) && k !in visits[i].page {
        assert k in Candidates(visits[i].table, params, CursorAt(visits, i));
        assert visits[i].page[|visits[i].page| - 1] in visits[i].page;
      }
    }
  }

  /** A finished walk returns a finding that matched throughout exactly once. */
  lemma FinishedWalkIsComplete(visits: seq<Visit>, params: Params, k: Key)
    requires IsWalk(visits, params) && visits != [] && visits[|visits| - 1].next.None?
    requires forall i :: 0 <= i < |visits| ==> Matches(visits[i].table, params, k)
    ensures Once(Returned(visits), k)
  {
    assert visits[..|visits|] == visits;
    NothingMissedYet(visits, params, k, |visits|);
    WalkAscends(visits, params, |visits|);
    SortedHoldsOnce(Returned(visits), k);
  }
}
