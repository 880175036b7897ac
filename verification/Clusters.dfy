/** `_clusters`: connected components of more than one item, found with the disjoint sets. */
module Clusters {
  import opened Collections
  import opened DisjointSets

  /** `predicate(left, right)` held for `x` and `y`, asked in the order in which they stand in `items`. */
  ghost predicate Linked(items: seq<Id>, near: (Id, Id) -> bool, x: Id, y: Id) {
    x in items && y in items && ((x < y && near(x, y)) || (y < x && near(y, x)))
  }

  /** A walk along links, of at least one item. */
  ghost predicate Path(items: seq<Id>, near: (Id, Id) -> bool, p: seq<Id>) {
    p != [] && p[0] in items && forall k {:trigger p[k]} :: 0 < k < |p| ==> Linked(items, near, p[k - 1], p[k])
  }

  ghost predicate Connected(items: seq<Id>, near: (Id, Id) -> bool, x: Id, y: Id) {
    exists p :: Path(items, near, p) && p[0] == x && p[|p| - 1] == y
  }

  lemma ConnectedToSelf(items: seq<Id>, near: (Id, Id) -> bool, x: Id)
    requires x in items
    ensures Connected(items, near, x, x)
  {
    assert Path(items, near, [x]);
  }

  lemma ConnectedByLink(items: seq<Id>, near: (Id, Id) -> bool, x: Id, y: Id)
    requires Linked(items, near, x, y)
    ensures Connected(items, near, x, y)
  {
    assert Path(items, near, [x, y]);
  }

  lemma ConnectedTransitive(items: seq<Id>, near: (Id, Id) -> bool, x: Id, y: Id, z: Id)
    requires Connected(items, near, x, y) && Connected(items, near, y, z)
    ensures Connected(items, near, x, z)
  {
    var p :| Path(items, near, p) && p[0] == x && p[|p| - 1] == y;
    var q :| Path(items, near, q) && q[0] == y && q[|q| - 1] == z;
    var pq := p + q[1..];
    forall k | 0 < k < |pq| ensures Linked(items, near, pq[k - 1], pq[k]) {
      if k >= |p| {
        assert pq[k - 1] == q[k - |p|] && pq[k] == q[k - |p| + 1];
      }
    }
    assert Path(items, near, pq);
  }

  lemma ConnectedSymmetric(items: seq<Id>, near: (Id, Id) -> bool, x: Id, y: Id)
    requires Connected(items, near, x, y)
    ensures Connected(items, near, y, x)
  {
    var p :| Path(items, near, p) && p[0] == x && p[|p| - 1] == y;
    ReversedPath(items, near, p);
    assert Reversed(p)[0] == y && Reversed(p)[|p| - 1] == x;
  }

  function Reversed(p: seq<Id>): (back: seq<Id>)
    ensures |back| == |p| && forall k :: 0 <= k < |p| ==> back[k] == p[|p| - 1 - k]
  {
    seq(|p|, k requires 0 <= k < |p| => p[|p| - 1 - k])
  }

  lemma ReversedPath(items: seq<Id>, near: (Id, Id) -> bool, p: seq<Id>)
    requires Path(items, near, p)
    ensures Path(items, near, Reversed(p))
  {
    var back := Reversed(p);
    forall k {:trigger back[k]} | 0 < k < |back| ensures Linked(items, near, back[k - 1], back[k]) {
      LinkedBack(items, near, p, |p| - k);
    }
    PathStaysInItems(items, near, p, |p| - 1);
  }

  lemma LinkedBack(items: seq<Id>, near: (Id, Id) -> bool, p: seq<Id>, k: nat)
    requires Path(items, near, p) && 0 < k < |p|
    ensures Linked(items, near, p[k], p[k - 1])
  {
    assert Linked(items, near, p[k - 1], p[k]);
  }

  lemma PathStaysInItems(items: seq<Id>, near: (Id, Id) -> bool, p: seq<Id>, k: nat)
    requires Path(items, near, p) && k < |p|
    ensures p[k] in items
  {
    if k > 0 {
      assert Linked(items, near, p[k - 1], p[k]);
    }
  }

  // ----- The forest and the graph agree -----

  ghost predicate Covers(parent: map<Id, Id>, items: seq<Id>) {
    Forest(parent) && forall i {:trigger items[i]} :: 0 <= i < |items| ==> items[i] in parent
  }

  /** An equivalence relation on the ids of the forest. */
  ghost predicate Equivalence(same: (Id, Id) -> bool, ids: set<Id>) {
    && (forall x :: x in ids ==> same(x, x))
    && (forall x, y {:trigger same(x, y)} :: x in ids && y in ids && same(x, y) ==> same(y, x))
    && (forall x, y, z {:trigger same(x, y), same(y, z)} ::
          x in ids && y in ids && z in ids && same(x, y) && same(y, z) ==> same(x, z))
  }

  /** Every id is related to its root. */
  ghost predicate Sound(same: (Id, Id) -> bool, parent: map<Id, Id>)
    requires Forest(parent)
  {
    forall x {:trigger Root(parent, x)} :: x in parent ==> same(x, Root(parent, x))
  }

  /** Joining two related ids never joins unrelated ones. */
  lemma SoundAfterJoin(same: (Id, Id) -> bool, p: map<Id, Id>, q: map<Id, Id>, left: Id, right: Id)
    requires Forest(p) && Forest(q) && Sound(same, p) && Equivalence(same, p.Keys)
    requires left in p && right in p && same(left, right) && JoinsRoots(p, q, left, right)
    ensures Sound(same, q)
  {
    var a, b := Root(p, left), Root(p, right);
    assert same(left, a) && same(right, b);
    RootsAreRelated(same, p.Keys, left, right, a, b);
    forall x {:trigger Root(q, x)} | x in q ensures same(x, Root(q, x)) {
      assert same(x, Root(p, x));
      Related(same, p.Keys, x, Root(p, x), Root(q, x));
    }
  }

  lemma RootsAreRelated(same: (Id, Id) -> bool, ids: set<Id>, left: Id, right: Id, a: Id, b: Id)
    requires Equivalence(same, ids) && left in ids && right in ids && a in ids && b in ids
    requires same(left, right) && same(left, a) && same(right, b)
    ensures same(a, b) && same(b, a) && same(a, a) && same(b, b)
  {
    assert same(a, left) && same(left, b);
  }

  lemma Related(same: (Id, Id) -> bool, ids: set<Id>, x: Id, y: Id, z: Id)
    requires Equivalence(same, ids) && x in ids && y in ids && z in ids && same(x, y)
    ensures same(y, z) ==> same(x, z)
  {
  }

  /** The pair of positions (i, j) comes before (row, column) in the double loop. */
  ghost predicate Visited(i: int, j: int, row: int, column: int) {
    i < row || (i == row && j < column)
  }

  /** Every near pair among the visited ones is already inside one tree. */
  ghost predicate Complete(items: seq<Id>, near: (Id, Id) -> bool, parent: map<Id, Id>, row: int, column: int)
    requires Covers(parent, items)
  {
    forall i, j {:trigger items[i], items[j]} ::
      0 <= i < j < |items| && Visited(i, j, row, column) && near(items[i], items[j]) ==>
        Root(parent, items[i]) == Root(parent, items[j])
  }

  lemma JoinKeepsTogether(p: map<Id, Id>, q: map<Id, Id>, left: Id, right: Id, x: Id, y: Id)
    requires Forest(p) && Forest(q) && left in p && right in p && x in p && y in p
    requires JoinsRoots(p, q, left, right)
    requires Root(p, x) == Root(p, y) || (x == left && y == right)
    ensures x in q && y in q && Root(q, x) == Root(q, y)
  {
    assert Root(q, x) == Root(q, x) && Root(q, y) == Root(q, y);
  }

  lemma VisitedAfterJoin(
    items: seq<Id>, near: (Id, Id) -> bool, p: map<Id, Id>, q: map<Id, Id>, i: nat, j: nat, m: nat, n: nat)
    requires Covers(p, items) && Covers(q, items) && i < j < |items|
    requires Complete(items, near, p, i, j) && JoinsRoots(p, q, items[i], items[j])
    requires m < n < |items| && Visited(m, n, i, j + 1) && near(items[m], items[n])
    ensures Root(q, items[m]) == Root(q, items[n])
  {
    assert Visited(m, n, i, j) || (m == i && n == j);
    assert Root(p, items[m]) == Root(p, items[n]) || (m == i && n == j);
    JoinKeepsTogether(p, q, items[i], items[j], items[m], items[n]);
  }

  lemma CompleteAfterJoin(items: seq<Id>, near: (Id, Id) -> bool, p: map<Id, Id>, q: map<Id, Id>, i: nat, j: nat)
    requires Covers(p, items) && Covers(q, items) && i < j < |items|
    requires Complete(items, near, p, i, j) && JoinsRoots(p, q, items[i], items[j])
    ensures Complete(items, near, q, i, j + 1)
  {
    forall m, n {:trigger items[m], items[n]} |
      0 <= m < n < |items| && Visited(m, n, i, j + 1) && near(items[m], items[n])
      ensures Root(q, items[m]) == Root(q, items[n])
    {
      VisitedAfterJoin(items, near, p, q, i, j, m, n);
    }
  }

  lemma {:induction false} SameRootAlongPath(
    items: seq<Id>, near: (Id, Id) -> bool, parent: map<Id, Id>, p: seq<Id>, k: nat)
    requires Covers(parent, items) && Ascending(items) && Complete(items, near, parent, |items|, 0)
    requires Path(items, near, p) && k < |p|
    ensures p[k] in parent && Root(parent, p[k]) == Root(parent, p[0])
  {
    PathStaysInItems(items, near, p, k);
    var j :| 0 <= j < |items| && items[j] == p[k];
    assert items[j] in parent;
    if k > 0 {
      SameRootAlongPath(items, near, parent, p, k - 1);
      PathStaysInItems(items, near, p, k - 1);
      var i :| 0 <= i < |items| && items[i] == p[k - 1];
      assert Linked(items, near, items[i], items[j]);
      LinkedPositions(items, near, i, j);
      assert Visited(i, j, |items|, 0) && Visited(j, i, |items|, 0);
      assert Root(parent, items[i]) == Root(parent, items[j]);
    }
  }

  lemma LinkedPositions(items: seq<Id>, near: (Id, Id) -> bool, i: nat, j: nat)
    requires Ascending(items) && i < |items| && j < |items| && Linked(items, near, items[i], items[j])
    ensures (i < j && near(items[i], items[j])) || (j < i && near(items[j], items[i]))
  {
  }

  ghost function Relation(items: seq<Id>, near: (Id, Id) -> bool): (Id, Id) -> bool {
    (x: Id, y: Id) => Connected(items, near, x, y)
  }

  /** Walks make an equivalence relation of the items. */
  lemma ConnectedIsEquivalence(items: seq<Id>, near: (Id, Id) -> bool, ids: set<Id>)
    requires forall x :: x in ids ==> x in items
    ensures Equivalence(Relation(items, near), ids)
  {
    var same := Relation(items, near);
    forall x | x in ids ensures same(x, x) {
      ConnectedToSelf(items, near, x);
    }
    forall x: Id, y: Id {:trigger same(x, y)} | same(x, y) ensures same(y, x) {
      ConnectedSymmetric(items, near, x, y);
    }
    forall x: Id, y: Id, z: Id {:trigger same(x, y), same(y, z)} | same(x, y) && same(y, z) ensures same(x, z) {
      ConnectedTransitive(items, near, x, y, z);
    }
  }

  /** What the double loop keeps, for any equivalence `same` that near pairs respect. */
  ghost predicate Progress(
    items: seq<Id>, near: (Id, Id) -> bool, same: (Id, Id) -> bool, parent: map<Id, Id>, row: int, column: int)
  {
    Covers(parent, items) && Sound(same, parent) && Complete(items, near, parent, row, column)
  }

  ghost predicate Respects(items: seq<Id>, near: (Id, Id) -> bool, same: (Id, Id) -> bool) {
    forall i, j {:trigger near(items[i], items[j])} ::
      0 <= i < j < |items| && near(items[i], items[j]) ==> same(items[i], items[j])
  }

  ghost predicate Finished(items: seq<Id>, near: (Id, Id) -> bool, parent: map<Id, Id>) {
    && Equivalence(Relation(items, near), parent.Keys)
    && Progress(items, near, Relation(items, near), parent, |items|, 0)
  }

  lemma RelatedRootsAreRelated(same: (Id, Id) -> bool, parent: map<Id, Id>, x: Id, y: Id)
    requires Forest(parent) && x in parent && y in parent && Sound(same, parent) && Equivalence(same, parent.Keys)
    requires Root(parent, x) == Root(parent, y)
    ensures same(x, y)
  {
    var r := Root(parent, x);
    assert same(x, r) && same(y, Root(parent, y)) && same(r, y);
  }

  /** Then two items share a root exactly when a walk joins them. */
  lemma RootsAreComponents(items: seq<Id>, near: (Id, Id) -> bool, parent: map<Id, Id>, i: nat, j: nat)
    requires Ascending(items) && i < |items| && j < |items| && Finished(items, near, parent)
    ensures Root(parent, items[i]) == Root(parent, items[j]) <==> Connected(items, near, items[i], items[j])
  {
    var x, y := items[i], items[j];
    if Connected(items, near, x, y) {
      var p :| Path(items, near, p) && p[0] == x && p[|p| - 1] == y;
      SameRootAlongPath(items, near, parent, p, |p| - 1);
    } else if Root(parent, x) == Root(parent, y) {
      RelatedRootsAreRelated(Relation(items, near), parent, x, y);
    }
  }

  // ----- The clusters -----

  /** The items among the first `n` that are related to `x`, in order. */
  ghost function Members(items: seq<Id>, same: (Id, Id) -> bool, n: nat, x: Id): seq<Id>
    requires n <= |items|
  {
    if n == 0 then []
    else
      var rest := Members(items, same, n - 1, x);
      if same(items[n - 1], x) then rest + [items[n - 1]] else rest
  }

  lemma {:induction false} MembersAre(items: seq<Id>, same: (Id, Id) -> bool, n: nat, x: Id, y: Id)
    requires n <= |items|
    ensures y in Members(items, same, n, x) <==> y in items[..n] && same(y, x)
  {
    if n > 0 {
      MembersAre(items, same, n - 1, x, y);
      assert items[..n] == items[..n - 1] + [items[n - 1]];
    }
  }

  lemma {:induction false} MembersAreNoMore(items: seq<Id>, same: (Id, Id) -> bool, n: nat, x: Id)
    requires n <= |items|
    ensures |Members(items, same, n, x)| <= n
  {
    if n > 0 {
      MembersAreNoMore(items, same, n - 1, x);
    }
  }

  /** A class lists its members in increasing order, as `sorted` would. */
  lemma {:induction false} MembersIncrease(items: seq<Id>, same: (Id, Id) -> bool, n: nat, x: Id)
    requires n <= |items| && Ascending(items)
    ensures Ascending(Members(items, same, n, x))
  {
    if n > 0 {
      MembersIncrease(items, same, n - 1, x);
      var rest := Members(items, same, n - 1, x);
      forall k | 0 <= k < |rest| ensures rest[k] < items[n - 1] {
        MembersAre(items, same, n - 1, x, rest[k]);
      }
    }
  }

  /** The connected component of `x`: all items that a walk joins to it, in order. */
  ghost function Component(items: seq<Id>, near: (Id, Id) -> bool, x: Id): seq<Id> {
    Members(items, Relation(items, near), |items|, x)
  }

  /** Exactly the classes of more than one item, each in order, by increasing least item. */
  ghost predicate AreClasses(items: seq<Id>, same: (Id, Id) -> bool, clusters: seq<seq<Id>>) {
    && (forall c :: c in clusters ==> |c| > 1 && c == Members(items, same, |items|, c[0]))
    && (forall i {:trigger items[i]} :: 0 <= i < |items| && |Members(items, same, |items|, items[i])| > 1 ==>
          Members(items, same, |items|, items[i]) in clusters)
    && (forall a, b :: 0 <= a < b < |clusters| ==>
          clusters[a] != [] && clusters[b] != [] && clusters[a][0] < clusters[b][0])
  }

  // ----- The double loop -----

  lemma ProgressAfterJoin(
    items: seq<Id>, near: (Id, Id) -> bool, same: (Id, Id) -> bool, p: map<Id, Id>, q: map<Id, Id>, i: nat, j: nat)
    requires i < j < |items| && Progress(items, near, same, p, i, j) && Equivalence(same, p.Keys) && Forest(q)
    requires same(items[i], items[j]) && JoinsRoots(p, q, items[i], items[j])
    ensures Progress(items, near, same, q, i, j + 1)
  {
    SoundAfterJoin(same, p, q, items[i], items[j]);
    CompleteAfterJoin(items, near, p, q, i, j);
  }

  lemma CompleteAfterSkip(items: seq<Id>, near: (Id, Id) -> bool, p: map<Id, Id>, i: nat, j: nat)
    requires Covers(p, items) && i < j < |items| && Complete(items, near, p, i, j) && !near(items[i], items[j])
    ensures Complete(items, near, p, i, j + 1)
  {
    forall m, n {:trigger items[m], items[n]} |
      0 <= m < n < |items| && Visited(m, n, i, j + 1) && near(items[m], items[n])
      ensures Root(p, items[m]) == Root(p, items[n])
    {
      assert Visited(m, n, i, j);
    }
  }

  lemma CompleteNextRow(items: seq<Id>, near: (Id, Id) -> bool, p: map<Id, Id>, i: nat)
    requires Covers(p, items) && i < |items| && Complete(items, near, p, i, |items|)
    ensures Complete(items, near, p, i + 1, 0)
  {
    forall m, n {:trigger items[m], items[n]} |
      0 <= m < n < |items| && Visited(m, n, i + 1, 0) && near(items[m], items[n])
      ensures Root(p, items[m]) == Root(p, items[n])
    {
      assert Visited(m, n, i, |items|);
    }
  }

  /** The inner loop: the item at `row` against every later one. */
  method JoinRow(
    sets: DisjointSets, items: seq<Id>, near: (Id, Id) -> bool, ghost same: (Id, Id) -> bool, row: nat)
    requires row < |items| && Respects(items, near, same) && Equivalence(same, sets.parent.Keys)
    requires sets.Valid() && Progress(items, near, same, sets.parent, row, 0)
    modifies sets
    ensures sets.Valid() && sets.parent.Keys == old(sets.parent.Keys)
    ensures Progress(items, near, same, sets.parent, row, |items|)
  {
    var column := row + 1;
    while column < |items|
      invariant row < column <= |items| && sets.Valid() && sets.parent.Keys == old(sets.parent.Keys)
      invariant Progress(items, near, same, sets.parent, row, column)
    {
      ghost var before := sets.parent;
      if near(items[row], items[column]) {
        sets.Union(items[row], items[column]);
        ProgressAfterJoin(items, near, same, before, sets.parent, row, column);
      } else {
        CompleteAfterSkip(items, near, before, row, column);
      }
      column := column + 1;
    }
  }

  lemma ProgressAtStart(items: seq<Id>, near: (Id, Id) -> bool, same: (Id, Id) -> bool, parent: map<Id, Id>)
    requires Covers(parent, items) && Equivalence(same, parent.Keys)
    requires forall x {:trigger Root(parent, x)} :: x in parent ==> Root(parent, x) == x
    ensures Progress(items, near, same, parent, 0, 0)
  {
    forall x {:trigger Root(parent, x)} | x in parent ensures same(x, Root(parent, x)) {
      assert same(x, x);
    }
  }

  method JoinNearPairs(items: seq<Id>, near: (Id, Id) -> bool, ghost same: (Id, Id) -> bool, ghost ids: set<Id>)
    returns (sets: DisjointSets)
    requires Respects(items, near, same) && Equivalence(same, ids) && ids == set x | x in items
    ensures fresh(sets) && sets.Valid() && sets.parent.Keys == ids
    ensures Progress(items, near, same, sets.parent, |items|, 0)
  {
    sets := new DisjointSets(items);
    ProgressAtStart(items, near, same, sets.parent);
    var row := 0;
    while row < |items|
      invariant row <= |items| && sets.Valid() && sets.parent.Keys == ids
      invariant Progress(items, near, same, sets.parent, row, 0)
    {
      JoinRow(sets, items, near, same, row);
      CompleteNextRow(items, near, sets.parent, row);
      row := row + 1;
    }
  }

  // ----- Grouping by root -----

  /** The items among the first `n` whose root is `r`, in order. */
  ghost function Rooted(items: seq<Id>, root: Id -> Id, n: nat, r: Id): seq<Id>
    requires n <= |items|
  {
    if n == 0 then []
    else
      var rest := Rooted(items, root, n - 1, r);
      if root(items[n - 1]) == r then rest + [items[n - 1]] else rest
  }

  lemma {:induction false} NoneRooted(items: seq<Id>, root: Id -> Id, n: nat, r: Id)
    requires n <= |items| && forall i {:trigger items[i]} :: 0 <= i < n ==> root(items[i]) != r
    ensures Rooted(items, root, n, r) == []
  {
    if n > 0 {
      NoneRooted(items, root, n - 1, r);
    }
  }

  /** The dictionary after `n` items: for each root met, the items below it. */
  ghost predicate Lists(items: seq<Id>, root: Id -> Id, n: nat, grouped: map<Id, seq<Id>>)
    requires n <= |items|
  {
    && (forall r {:trigger grouped[r]} :: r in grouped ==>
          grouped[r] == Rooted(items, root, n, r) && grouped[r] != [] && grouped[r][0] == r)
    && (forall i {:trigger items[i]} :: 0 <= i < n ==> root(items[i]) in grouped)
  }

  /** Its keys, in the order in which they were met. */
  ghost predicate KeyOrder(items: seq<Id>, n: nat, order: seq<Id>, grouped: map<Id, seq<Id>>)
    requires n <= |items|
  {
    && (forall k {:trigger order[k]} :: 0 <= k < |order| ==> order[k] in grouped)
    && (forall k {:trigger order[k]} :: 0 <= k < |order| ==> n > 0 && order[k] <= items[n - 1])
    && (forall r {:trigger grouped[r]} :: r in grouped ==> r in order)
    && Ascending(order)
  }

  /** Adding one item to the list of its root. */
  function Grouped(grouped: map<Id, seq<Id>>, root: Id, item: Id): map<Id, seq<Id>> {
    grouped[root := (if root in grouped then grouped[root] else []) + [item]]
  }

  lemma ListsStep(items: seq<Id>, root: Id -> Id, n: nat, grouped: map<Id, seq<Id>>, r: Id)
    requires n < |items| && r == root(items[n]) && Lists(items, root, n, grouped)
    requires r !in grouped ==> r == items[n]
    ensures Lists(items, root, n + 1, Grouped(grouped, r, items[n]))
  {
    var after := Grouped(grouped, r, items[n]);
    if r !in grouped {
      NoneRooted(items, root, n, r);
    }
    forall q {:trigger after[q]} | q in after
      ensures after[q] == Rooted(items, root, n + 1, q) && after[q] != [] && after[q][0] == q
    {
      if q in grouped {
        assert grouped[q] == Rooted(items, root, n, q);
      }
    }
  }

  lemma KeyOrderStep(items: seq<Id>, n: nat, order: seq<Id>, grouped: map<Id, seq<Id>>, r: Id)
    requires n < |items| && Ascending(items) && KeyOrder(items, n, order, grouped)
    requires r !in grouped ==> r == items[n]
    ensures KeyOrder(items, n + 1, if r in grouped then order else order + [r], Grouped(grouped, r, items[n]))
  {
    var after := Grouped(grouped, r, items[n]);
    var longer := if r in grouped then order else order + [r];
    forall k {:trigger longer[k]} | 0 <= k < |longer| ensures longer[k] in after && longer[k] <= items[n] {
      if k < |order| {
        assert longer[k] == order[k];
      }
    }
    forall q {:trigger after[q]} | q in after ensures q in longer {
      if q in grouped {
        assert grouped[q] == grouped[q];
      }
    }
    forall i, j | 0 <= i < j < |longer| ensures longer[i] < longer[j] {
      assert longer[i] == order[i];
    }
  }

  /** A root met for the first time is the item itself, because roots are least and items increase. */
  lemma NewRootIsItem(items: seq<Id>, root: Id -> Id, n: nat, grouped: map<Id, seq<Id>>, at: nat)
    requires n < |items| && at < |items| && Ascending(items) && Lists(items, root, n, grouped)
    requires items[at] == root(items[n]) && root(items[at]) == items[at] && items[at] <= items[n]
    requires root(items[n]) !in grouped
    ensures root(items[n]) == items[n]
  {
  }

  ghost function RootOf(parent: map<Id, Id>): Id -> Id
    requires Forest(parent)
  {
    (x: Id) => if x in parent then Root(parent, x) else x
  }

  lemma RootOfRoot(parent: map<Id, Id>, x: Id)
    requires Forest(parent) && x in parent
    ensures RootOf(parent)(x) == Root(parent, x) && RootOf(parent)(Root(parent, x)) == Root(parent, x)
  {
    var r := Root(parent, x);
    assert Follow(parent, r) == r;
  }

  /** `position` finds every id of the forest among the items. */
  ghost predicate Locates(position: Id -> nat, items: seq<Id>, parent: map<Id, Id>) {
    forall x {:trigger position(x)} :: x in parent ==> position(x) < |items| && items[position(x)] == x
  }

  lemma Positions(items: seq<Id>, parent: map<Id, Id>) returns (position: Id -> nat)
    requires forall x :: x in parent ==> x in items
    ensures Locates(position, items, parent)
  {
    position := (x: Id) => if x in items then IndexOf(items, x) else 0;
  }

  ghost function IndexOf(items: seq<Id>, x: Id): (i: nat)
    requires x in items
    ensures i < |items| && items[i] == x
  {
    if items[0] == x then 0 else 1 + IndexOf(items[1..], x)
  }

  lemma GroupingStep(
    items: seq<Id>, parent: map<Id, Id>, position: Id -> nat, n: nat, order: seq<Id>, grouped: map<Id, seq<Id>>, r: Id)
    requires Ascending(items) && Covers(parent, items) && Locates(position, items, parent) && n < |items|
    requires items[n] in parent && r == Root(parent, items[n])
    requires Lists(items, RootOf(parent), n, grouped) && KeyOrder(items, n, order, grouped)
    ensures Lists(items, RootOf(parent), n + 1, Grouped(grouped, r, items[n]))
    ensures KeyOrder(items, n + 1, if r in grouped then order else order + [r], Grouped(grouped, r, items[n]))
  {
    RootOfRoot(parent, items[n]);
    if r !in grouped {
      NewRootIsItem(items, RootOf(parent), n, grouped, position(r));
    }
    ListsStep(items, RootOf(parent), n, grouped, r);
    KeyOrderStep(items, n, order, grouped, r);
  }

  /** Fills the dictionary by asking for every item's root; the forest only gets flatter on the way. */
  method GroupByRoot(sets: DisjointSets, items: seq<Id>, ghost parent: map<Id, Id>, ghost position: Id -> nat)
    returns (order: seq<Id>, grouped: map<Id, seq<Id>>)
    requires sets.Valid() && sets.parent == parent && Ascending(items) && Covers(parent, items)
    requires Locates(position, items, parent)
    modifies sets
    ensures Lists(items, RootOf(parent), |items|, grouped) && KeyOrder(items, |items|, order, grouped)
  {
    order, grouped := [], map[];
    ghost var root := RootOf(parent);
    var n := 0;
    while n < |items|
      invariant n <= |items| && sets.Valid() && SameRoots(sets.parent, parent)
      invariant Lists(items, root, n, grouped) && KeyOrder(items, n, order, grouped)
    {
      ghost var before := sets.parent;
      assert items[n] in parent;
      var r := sets.Find(items[n]);
      SameRootsAsBefore(sets.parent, before, parent);
      GroupingStep(items, parent, position, n, order, grouped, r);
      order := if r in grouped then order else order + [r];
      grouped := Grouped(grouped, r, items[n]);
      n := n + 1;
    }
  }

  /** Keeps the groups of more than one item, in the order of their keys. */
  method LargeGroups(order: seq<Id>, grouped: map<Id, seq<Id>>) returns (clusters: seq<seq<Id>>)
    requires Ascending(order) && forall k {:trigger order[k]} :: 0 <= k < |order| ==> order[k] in grouped
    requires forall r {:trigger grouped[r]} :: r in grouped ==> grouped[r] != [] && grouped[r][0] == r
    ensures forall c :: c in clusters ==> |c| > 1 && c[0] in grouped && c == grouped[c[0]]
    ensures forall k {:trigger order[k]} :: 0 <= k < |order| && |grouped[order[k]]| > 1 ==>
      grouped[order[k]] in clusters
    ensures forall a, b :: 0 <= a < b < |clusters| ==>
      clusters[a] != [] && clusters[b] != [] && clusters[a][0] < clusters[b][0]
  {
    clusters := [];
    for n := 0 to |order|
      invariant forall c :: c in clusters ==> |c| > 1 && c[0] in grouped && c == grouped[c[0]] && c[0] in order[..n]
      invariant forall k {:trigger order[k]} :: 0 <= k < n && |grouped[order[k]]| > 1 ==> grouped[order[k]] in clusters
      invariant forall a, b :: 0 <= a < b < |clusters| ==>
        clusters[a] != [] && clusters[b] != [] && clusters[a][0] < clusters[b][0]
    {
      var group := grouped[order[n]];
      if |group| > 1 {
        forall a | 0 <= a < |clusters| ensures clusters[a] != [] && clusters[a][0] < group[0] {
          assert clusters[a] in clusters;
        }
        clusters := clusters + [group];
      }
    }
  }

  // ----- The groups are the components -----

  /** Two items have the same root exactly when they are related. */
  ghost predicate Agrees(items: seq<Id>, same: (Id, Id) -> bool, root: Id -> Id) {
    forall i, j {:trigger items[i], items[j]} :: 0 <= i < |items| && 0 <= j < |items| ==>
      (root(items[i]) == root(items[j]) <==> same(items[i], items[j]))
  }

  lemma RootsAgree(items: seq<Id>, near: (Id, Id) -> bool, parent: map<Id, Id>)
    requires Ascending(items) && Finished(items, near, parent)
    ensures Agrees(items, Relation(items, near), RootOf(parent))
  {
    forall i, j {:trigger items[i], items[j]} | 0 <= i < |items| && 0 <= j < |items|
      ensures RootOf(parent)(items[i]) == RootOf(parent)(items[j]) <==> Relation(items, near)(items[i], items[j])
    {
      RootsAreComponents(items, near, parent, i, j);
    }
  }

  lemma {:induction false} RootedIsClass(items: seq<Id>, same: (Id, Id) -> bool, root: Id -> Id, n: nat, i: nat)
    requires Agrees(items, same, root) && n <= |items| && i < |items|
    ensures Rooted(items, root, n, root(items[i])) == Members(items, same, n, items[i])
  {
    if n > 0 {
      RootedIsClass(items, same, root, n - 1, i);
    }
  }

  lemma GroupsAreClasses(
    items: seq<Id>, same: (Id, Id) -> bool, root: Id -> Id, position: Id -> nat,
    order: seq<Id>, grouped: map<Id, seq<Id>>, clusters: seq<seq<Id>>)
    requires Agrees(items, same, root)
    requires KeysFound(items, root, position, grouped)
    requires Lists(items, root, |items|, grouped) && KeyOrder(items, |items|, order, grouped)
    requires forall c :: c in clusters ==> |c| > 1 && c[0] in grouped && c == grouped[c[0]]
    requires forall k {:trigger order[k]} :: 0 <= k < |order| && |grouped[order[k]]| > 1 ==>
      grouped[order[k]] in clusters
    requires forall a, b :: 0 <= a < b < |clusters| ==>
      clusters[a] != [] && clusters[b] != [] && clusters[a][0] < clusters[b][0]
    ensures AreClasses(items, same, clusters)
  {
    forall c | c in clusters ensures c == Members(items, same, |items|, c[0]) {
      RootedIsClass(items, same, root, |items|, position(c[0]));
    }
    forall i {:trigger items[i]} | 0 <= i < |items| && |Members(items, same, |items|, items[i])| > 1
      ensures Members(items, same, |items|, items[i]) in clusters
    {
      RootedIsClass(items, same, root, |items|, i);
      var r := root(items[i]);
      assert grouped[r] == Members(items, same, |items|, items[i]);
      var k :| 0 <= k < |order| && order[k] == r;
    }
  }

  /** The keys of the dictionary are items and roots. */
  lemma {:induction false} HeadIsItem(items: seq<Id>, root: Id -> Id, n: nat, r: Id) returns (i: nat)
    requires n <= |items| && Rooted(items, root, n, r) != []
    ensures i < n && Rooted(items, root, n, r)[0] == items[i] && root(items[i]) == r
  {
    if Rooted(items, root, n - 1, r) != [] {
      i := HeadIsItem(items, root, n - 1, r);
    } else {
      i := n - 1;
    }
  }

  /** `position` finds every key among the items, and every key is a root. */
  ghost predicate KeysFound(items: seq<Id>, root: Id -> Id, position: Id -> nat, grouped: map<Id, seq<Id>>) {
    forall r {:trigger position(r)} :: r in grouped ==>
      position(r) < |items| && items[position(r)] == r && root(r) == r
  }

  lemma KeysAreRoots(items: seq<Id>, parent: map<Id, Id>, position: Id -> nat, grouped: map<Id, seq<Id>>)
    requires Covers(parent, items) && Locates(position, items, parent)
    requires Lists(items, RootOf(parent), |items|, grouped)
    ensures KeysFound(items, RootOf(parent), position, grouped)
  {
    forall r {:trigger position(r)} | r in grouped
      ensures position(r) < |items| && items[position(r)] == r && RootOf(parent)(r) == r
    {
      assert grouped[r][0] == r;
      var i := HeadIsItem(items, RootOf(parent), |items|, r);
      assert items[i] in parent;
    }
  }

  /** The second half of `_clusters`, for a forest whose trees are the classes of `same`. */
  method ReadClusters(
    sets: DisjointSets, items: seq<Id>, ghost same: (Id, Id) -> bool, ghost parent: map<Id, Id>,
    ghost position: Id -> nat)
    returns (clusters: seq<seq<Id>>)
    requires sets.Valid() && sets.parent == parent && Ascending(items) && Covers(parent, items)
    requires Locates(position, items, parent) && Agrees(items, same, RootOf(parent))
    modifies sets
    ensures AreClasses(items, same, clusters)
  {
    var order, grouped := GroupByRoot(sets, items, parent, position);
    clusters := LargeGroups(order, grouped);
    KeysAreRoots(items, parent, position, grouped);
    GroupsAreClasses(items, same, RootOf(parent), position, order, grouped, clusters);
  }

  lemma NearPairsAreConnected(items: seq<Id>, near: (Id, Id) -> bool)
    requires Ascending(items)
    ensures Respects(items, near, Relation(items, near))
  {
    forall i, j {:trigger near(items[i], items[j])} | 0 <= i < j < |items| && near(items[i], items[j])
      ensures Relation(items, near)(items[i], items[j])
    {
      ConnectedByLink(items, near, items[i], items[j]);
    }
  }

  /** The clusters are exactly the connected components of more than one item. */
  method FindClusters(items: seq<Id>, near: (Id, Id) -> bool) returns (clusters: seq<seq<Id>>)
    requires Ascending(items)
    ensures AreClasses(items, Relation(items, near), clusters)
  {
    if |items| < 2 {
      FewItemsHaveNoClusters(items, Relation(items, near));
      return [];
    }
    ghost var ids := set x | x in items;
    ConnectedIsEquivalence(items, near, ids);
    NearPairsAreConnected(items, near);
    var sets := JoinNearPairs(items, near, Relation(items, near), ids);
    RootsAgree(items, near, sets.parent);
    ghost var position := Positions(items, sets.parent);
    clusters := ReadClusters(sets, items, Relation(items, near), sets.parent, position);
  }

  lemma FewItemsHaveNoClusters(items: seq<Id>, same: (Id, Id) -> bool)
    requires |items| < 2
    ensures AreClasses(items, same, [])
  {
    forall i {:trigger items[i]} | 0 <= i < |items| ensures |Members(items, same, |items|, items[i])| <= 1 {
      MembersAreNoMore(items, same, |items|, items[i]);
    }
  }

  // ----- What the clusters say about the items -----

  lemma ClassesOverlapOnlyIfEqual(items: seq<Id>, same: (Id, Id) -> bool, n: nat, x: Id, y: Id)
    requires n <= |items| && Equivalence(same, set z | z in items) && x in items && y in items && same(x, y)
    ensures Members(items, same, n, x) == Members(items, same, n, y)
  {
    if n > 0 {
      ClassesOverlapOnlyIfEqual(items, same, n - 1, x, y);
      var z := items[n - 1];
      assert z in items && same(y, x);
      assert same(z, x) ==> same(z, y);
      assert same(z, y) ==> same(z, x);
    }
  }

  /** Two different items share a cluster exactly when a walk of near pairs joins them. */
  lemma SharedClusterIffConnected(items: seq<Id>, near: (Id, Id) -> bool, clusters: seq<seq<Id>>, x: Id, y: Id)
    requires Ascending(items) && AreClasses(items, Relation(items, near), clusters)
    requires x in items && y in items && x != y
    ensures Connected(items, near, x, y) <==> exists c :: c in clusters && x in c && y in c
  {
    var same := Relation(items, near);
    ConnectedIsEquivalence(items, near, set z | z in items);
    assert items[..|items|] == items;
    if Connected(items, near, x, y) {
      var i :| 0 <= i < |items| && items[i] == x;
      var c := Members(items, same, |items|, x);
      ConnectedSymmetric(items, near, x, y);
      ConnectedToSelf(items, near, x);
      MembersAre(items, same, |items|, x, x);
      MembersAre(items, same, |items|, x, y);
      TwoMembers(c, x, y);
      assert Members(items, same, |items|, items[i]) in clusters;
      assert c in clusters && x in c && y in c;
    }
    if c :| c in clusters && x in c && y in c {
      MembersAre(items, same, |items|, c[0], x);
      MembersAre(items, same, |items|, c[0], y);
      ConnectedSymmetric(items, near, y, c[0]);
      ConnectedTransitive(items, near, x, c[0], y);
    }
  }

  lemma TwoMembers(c: seq<Id>, x: Id, y: Id)
    requires x in c && y in c && x != y
    ensures |c| > 1
  {
  }

  /** No item stands in two clusters. */
  lemma ClustersAreDisjoint(items: seq<Id>, near: (Id, Id) -> bool, clusters: seq<seq<Id>>, a: nat, b: nat, x: Id)
    requires Ascending(items) && AreClasses(items, Relation(items, near), clusters)
    requires a < |clusters| && b < |clusters| && x in clusters[a] && x in clusters[b]
    ensures a == b
  {
    var same := Relation(items, near);
    ConnectedIsEquivalence(items, near, set z | z in items);
    assert items[..|items|] == items;
    var p, q := clusters[a][0], clusters[b][0];
    assert clusters[a] in clusters && clusters[b] in clusters;
    MembersAre(items, same, |items|, p, x);
    MembersAre(items, same, |items|, q, x);
    MembersAre(items, same, |items|, p, p);
    MembersAre(items, same, |items|, q, q);
    assert same(p, x) && same(x, q);
    ClassesOverlapOnlyIfEqual(items, same, |items|, p, q);
    assert clusters[a][0] == clusters[b][0];
  }
}
