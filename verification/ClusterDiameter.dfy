/** How far apart two members of one cluster can be. */
module ClusterDiameter {
  import opened Arithmetic
  import opened Collections
  import opened DisjointSets
  import opened Clusters

  ghost predicate IsMetric(gap: (Id, Id) -> nat) {
    && (forall x :: gap(x, x) == 0)
    && (forall x, y :: gap(x, y) == gap(y, x))
    && (forall x, y, z {:trigger gap(x, y), gap(y, z)} :: gap(x, z) <= gap(x, y) + gap(y, z))
  }

  /** Near pairs are at most `threshold` apart. */
  ghost predicate Bounds(near: (Id, Id) -> bool, gap: (Id, Id) -> nat, threshold: int) {
    forall x, y {:trigger near(x, y)} :: near(x, y) ==> gap(x, y) <= threshold
  }

  lemma {:induction false} GapAlongPath(
    items: seq<Id>, near: (Id, Id) -> bool, gap: (Id, Id) -> nat, threshold: int, p: seq<Id>, k: nat)
    requires IsMetric(gap) && Bounds(near, gap, threshold) && Path(items, near, p) && k < |p|
    ensures gap(p[0], p[k]) <= threshold * k
  {
    if k > 0 {
      GapAlongPath(items, near, gap, threshold, p, k - 1);
      assert Linked(items, near, p[k - 1], p[k]);
      assert near(p[k - 1], p[k]) || near(p[k], p[k - 1]);
      assert gap(p[k - 1], p[k]) <= threshold;
      assert gap(p[0], p[k]) <= gap(p[0], p[k - 1]) + gap(p[k - 1], p[k]);
      assert threshold * k == threshold * (k - 1) + threshold;
    }
  }

  /** A walk that visits an item twice can leave out the part in between. */
  lemma {:induction false} SimplePath(items: seq<Id>, near: (Id, Id) -> bool, p: seq<Id>) returns (q: seq<Id>)
    requires Path(items, near, p)
    ensures Path(items, near, q) && Distinct(q) && q[0] == p[0] && q[|q| - 1] == p[|p| - 1]
    decreases |p|
  {
    if Distinct(p) {
      q := p;
    } else {
      var i, j :| 0 <= i < j < |p| && p[i] == p[j];
      Shortcut(items, near, p, i, j);
      q := SimplePath(items, near, p[..i] + p[j..]);
    }
  }

  lemma Shortcut(items: seq<Id>, near: (Id, Id) -> bool, p: seq<Id>, i: nat, j: nat)
    requires Path(items, near, p) && i < j < |p| && p[i] == p[j]
    ensures var shorter := p[..i] + p[j..];
      Path(items, near, shorter) && shorter[0] == p[0] && shorter[|shorter| - 1] == p[|p| - 1]
  {
    var shorter := p[..i] + p[j..];
    forall k {:trigger shorter[k]} | 0 < k < |shorter| ensures Linked(items, near, shorter[k - 1], shorter[k]) {
      if k < i {
        assert Linked(items, near, p[k - 1], p[k]);
      } else if k == i {
        assert shorter[k] == p[j] && shorter[k - 1] == p[i - 1];
        assert Linked(items, near, p[i - 1], p[i]);
      } else {
        assert shorter[k] == p[k - i + j] && shorter[k - 1] == p[k - 1 - i + j];
        assert Linked(items, near, p[k - i + j - 1], p[k - i + j]);
      }
    }
  }

  lemma {:induction false} DistinctInside(p: seq<Id>, c: seq<Id>)
    requires Distinct(p) && forall x :: x in p ==> x in c
    ensures |p| <= |c|
  {
    if p != [] {
      var x := p[0];
      assert x in p;
      var i :| 0 <= i < |c| && c[i] == x;
      var rest := c[..i] + c[i + 1..];
      forall y | y in p[1..] ensures y in rest {
        assert y in p && y != x;
        var k :| 0 <= k < |c| && c[k] == y;
        assert y == if k < i then rest[k] else rest[k - 1];
      }
      DistinctInside(p[1..], rest);
    }
  }

  lemma PathStaysInCluster(items: seq<Id>, near: (Id, Id) -> bool, p: seq<Id>, head: Id, k: nat)
    requires Path(items, near, p) && Connected(items, near, p[0], head) && k < |p|
    ensures p[k] in Component(items, near, head)
  {
    PathStaysInItems(items, near, p, k);
    assert Path(items, near, p[..k + 1]) && p[..k + 1][0] == p[0] && p[..k + 1][k] == p[k];
    assert Connected(items, near, p[0], p[k]);
    ConnectedSymmetric(items, near, p[0], p[k]);
    ConnectedTransitive(items, near, p[k], p[0], head);
    assert items[..|items|] == items;
    MembersAre(items, Relation(items, near), |items|, head, p[k]);
  }

  /** Two members of a cluster of `n` items are at most `threshold * (n - 1)` apart. */
  lemma DiameterBound(
    items: seq<Id>, near: (Id, Id) -> bool, gap: (Id, Id) -> nat, threshold: int,
    clusters: seq<seq<Id>>, c: seq<Id>, x: Id, y: Id)
    requires Ascending(items) && AreClasses(items, Relation(items, near), clusters)
    requires c in clusters && x in c && y in c
    requires IsMetric(gap) && Bounds(near, gap, threshold)
    ensures gap(x, y) <= threshold * (|c| - 1)
  {
    var head := c[0];
    assert c == Component(items, near, head);
    assert items[..|items|] == items;
    MembersAre(items, Relation(items, near), |items|, head, x);
    MembersAre(items, Relation(items, near), |items|, head, y);
    ConnectedSymmetric(items, near, y, head);
    ConnectedTransitive(items, near, x, head, y);
    var p :| Path(items, near, p) && p[0] == x && p[|p| - 1] == y;
    var q := SimplePath(items, near, p);
    forall z | z in q ensures z in c {
      var k :| 0 <= k < |q| && q[k] == z;
      PathStaysInCluster(items, near, q, head, k);
    }
    DistinctInside(q, c);
    GapAlongPath(items, near, gap, threshold, q, |q| - 1);
    MembersIncrease(items, Relation(items, near), |items|, head);
    ThresholdIsNotNegative(items, near, gap, threshold, c, head);
    MulMonotone(|q| - 1, |c| - 1, threshold);
  }

  /** A cluster of more than one item has a link, and distances are not negative. */
  lemma ThresholdIsNotNegative(
    items: seq<Id>, near: (Id, Id) -> bool, gap: (Id, Id) -> nat, threshold: int, c: seq<Id>, head: Id)
    requires |c| > 1 && c[0] != c[1] && c == Component(items, near, head) && Bounds(near, gap, threshold)
    ensures threshold >= 0
  {
    assert items[..|items|] == items;
    MembersAre(items, Relation(items, near), |items|, head, c[0]);
    MembersAre(items, Relation(items, near), |items|, head, c[1]);
    var z := if c[0] == head then c[1] else c[0];
    var p :| Path(items, near, p) && p[0] == z && p[|p| - 1] == head;
    assert Linked(items, near, p[0], p[1]);
  }
}
