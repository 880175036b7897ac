/**
 The `parent` dictionary of `_clusters`, with its `find` (path halving) and `union`
 (the smaller id becomes the root).
 */
module DisjointSets {

  /** A finding id. Only equality and order of ids matter here, so an id is its rank in sorted order. */
  type Id = nat

  /** Parents never exceed their children, so following them ends at a root. */
  ghost predicate Forest(parent: map<Id, Id>) {
    forall v {:trigger parent[v] in parent} :: v in parent ==> parent[v] in parent && parent[v] <= v
  }

  /** Where following the parents of `v` ends. */
  ghost function Follow(parent: map<Id, Id>, v: Id): (r: Id)
    requires Forest(parent) && v in parent
    ensures r in parent && parent[r] == r && r <= v
    decreases v
  {
    if parent[v] == v then v else Follow(parent, parent[v])
  }

  /** The root of `v`; a name for `Follow` that does not unfold when quantifiers range over it. */
  ghost function Root(parent: map<Id, Id>, v: Id): (r: Id)
    requires Forest(parent) && v in parent
    ensures r in parent && parent[r] == r && r <= v
  {
    Follow(parent, v)
  }

  /** Two forests over the same ids in which every id has the same root. */
  ghost predicate SameRoots(p: map<Id, Id>, q: map<Id, Id>)
    requires Forest(p) && Forest(q)
  {
    p.Keys == q.Keys && forall x {:trigger Root(p, x)} :: x in p ==> Root(p, x) == Root(q, x)
  }

  lemma {:induction false} HalvingKeepsRoot(parent: map<Id, Id>, v: Id, x: Id)
    requires Forest(parent) && v in parent && x in parent
    requires Forest(parent[v := parent[parent[v]]])
    ensures Root(parent[v := parent[parent[v]]], x) == Root(parent, x)
    decreases x
  {
    assert parent[v] in parent && parent[parent[v]] in parent && parent[x] in parent;
    if x == v {
      assert Follow(parent, parent[v]) == Follow(parent, parent[parent[v]]);
      if parent[parent[v]] != v {
        HalvingKeepsRoot(parent, v, parent[parent[v]]);
      }
    } else if parent[x] != x {
      HalvingKeepsRoot(parent, v, parent[x]);
    }
  }

  /** Path halving, `parent[v] = parent[parent[v]]`, never changes a root. */
  lemma HalvingKeepsRoots(parent: map<Id, Id>, v: Id)
    requires Forest(parent) && v in parent
    ensures Forest(parent[v := parent[parent[v]]])
    ensures SameRoots(parent[v := parent[parent[v]]], parent)
  {
    assert parent[v] in parent && parent[parent[v]] in parent;
    forall x {:trigger Root(parent[v := parent[parent[v]]], x)} | x in parent
      ensures Root(parent[v := parent[parent[v]]], x) == Root(parent, x)
    {
      HalvingKeepsRoot(parent, v, x);
    }
  }

  lemma SameRootsAsBefore(p: map<Id, Id>, q: map<Id, Id>, r: map<Id, Id>)
    requires Forest(p) && Forest(q) && Forest(r) && SameRoots(p, q) && SameRoots(q, r)
    ensures SameRoots(p, r)
  {
    forall x {:trigger Root(p, x)} | x in p ensures Root(p, x) == Root(r, x) {
      assert Root(q, x) == Root(r, x);
    }
  }

  /** The id that `find` goes on with has the same root. */
  lemma NextHasSameRoot(parent: map<Id, Id>, v: Id, next: map<Id, Id>)
    requires Forest(parent) && Forest(next) && SameRoots(next, parent) && v in parent
    ensures parent[parent[v]] in next && Root(next, parent[parent[v]]) == Root(parent, v)
  {
    assert Follow(parent, v) == Follow(parent, parent[v]) == Follow(parent, parent[parent[v]]);
    assert Root(next, parent[parent[v]]) == Root(parent, parent[parent[v]]);
  }

  function Min(a: Id, b: Id): Id {
    if b < a then b else a
  }

  function Max(a: Id, b: Id): Id {
    if b > a then b else a
  }

  /** `q` is `p` with the trees of `left` and `right` joined below the smaller root, and no other change. */
  ghost predicate JoinsRoots(p: map<Id, Id>, q: map<Id, Id>, left: Id, right: Id)
    requires Forest(p) && Forest(q) && left in p && right in p
  {
    p.Keys == q.Keys
    && forall x {:trigger Root(q, x)} :: x in p ==>
      Root(q, x) == if Root(p, x) == Root(p, left) || Root(p, x) == Root(p, right)
                    then Min(Root(p, left), Root(p, right))
                    else Root(p, x)
  }

  lemma {:induction false} LinkRoot(parent: map<Id, Id>, low: Id, high: Id, x: Id)
    requires Forest(parent) && low in parent && high in parent && x in parent
    requires parent[low] == low && parent[high] == high && low < high
    ensures Root(parent[high := low], x) == if Root(parent, x) == high then low else Root(parent, x)
    decreases x
  {
    assert parent[x] in parent;
    var linked := parent[high := low];
    forall v | v in linked ensures linked[v] in linked && linked[v] <= v {
      assert parent[v] in parent;
    }
    if x == high {
      assert Root(linked, low) == low;
    } else if parent[x] != x {
      LinkRoot(parent, low, high, parent[x]);
    }
  }

  /** Hanging one root below a smaller one joins their two trees and nothing else. */
  lemma LinkRoots(parent: map<Id, Id>, a: Id, b: Id)
    requires Forest(parent) && a in parent && b in parent
    requires parent[a] == a && parent[b] == b && a != b
    ensures Forest(parent[Max(a, b) := Min(a, b)])
    ensures JoinsRoots(parent, parent[Max(a, b) := Min(a, b)], a, b)
  {
    forall x {:trigger Root(parent[Max(a, b) := Min(a, b)], x)} | x in parent
      ensures Root(parent[Max(a, b) := Min(a, b)], x)
           == if Root(parent, x) == Max(a, b) then Min(a, b) else Root(parent, x)
    {
      LinkRoot(parent, Min(a, b), Max(a, b), x);
    }
  }

  /** Joining the two roots found after some halving joins the trees they were found for. */
  lemma JoinFoundRoots(p: map<Id, Id>, q: map<Id, Id>, left: Id, right: Id)
    requires Forest(p) && Forest(q) && left in p && right in p && SameRoots(q, p)
    requires Root(p, left) != Root(p, right)
    ensures var r := q[Max(Root(p, left), Root(p, right)) := Min(Root(p, left), Root(p, right))];
      Forest(r) && JoinsRoots(p, r, left, right)
  {
    var a, b := Root(q, left), Root(q, right);
    LinkRoots(q, a, b);
    var r := q[Max(a, b) := Min(a, b)];
    assert Root(q, a) == a && Root(q, b) == b;
    forall x {:trigger Root(r, x)} | x in p
      ensures Root(r, x) == if Root(p, x) == a || Root(p, x) == b then Min(a, b) else Root(p, x)
    {
      assert Root(q, x) == Root(p, x);
    }
  }

  class DisjointSets {
    var parent: map<Id, Id>

    ghost predicate Valid()
      reads this
    {
      Forest(parent)
    }

    /** Every item starts as its own root. */
    constructor (items: seq<Id>)
      ensures Valid() && parent.Keys == (set x | x in items)
      ensures forall x {:trigger Root(parent, x)} :: x in parent ==> Root(parent, x) == x
    {
      parent := map x | x in items :: x;
    }

    /** Returns the root of `value`, shortening the path to it on the way. */
    method Find(value: Id) returns (root: Id)
      requires Valid() && value in parent
      modifies this
      ensures Valid() && SameRoots(parent, old(parent))
      ensures root == Root(old(parent), value)
    {
      root := value;
      while parent[root] != root
        invariant Valid() && root in parent && SameRoots(parent, old(parent))
        invariant Root(parent, root) == Root(old(parent), value)
        decreases root
      {
        ghost var before := parent;
        HalvingKeepsRoots(before, root);
        parent := parent[root := parent[parent[root]]];
        NextHasSameRoot(before, root, parent);
        SameRootsAsBefore(parent, before, old(parent));
        root := parent[root];
      }
    }

    /** Joins the trees of `left` and `right` below the smaller of their roots. */
    method Union(left: Id, right: Id)
      requires Valid() && left in parent && right in parent
      modifies this
      ensures Valid() && JoinsRoots(old(parent), parent, left, right)
    {
      var leftRoot := Find(left);
      var rightRoot := Find(right);
      if leftRoot != rightRoot {
        JoinFoundRoots(old(parent), parent, left, right);
        parent := parent[Max(leftRoot, rightRoot) := Min(leftRoot, rightRoot)];
      }
    }
  }
}
