/** Walks in a finite directed graph given by successor lists, cycles allowed. */
module Reachability {

  /** A valid `major:minor` identity. */
  datatype Device = Device(major: nat, minor: nat)

  type Graph = map<Device, seq<Device>>

  ghost predicate Step(g: Graph, x: Device, y: Device) {
    x in g && y in g[x]
  }

  ghost predicate Walk(g: Graph, p: seq<Device>) {
    forall k {:trigger p[k]} :: 0 < k < |p| ==> Step(g, p[k - 1], p[k])
  }

  /** A walk of at least one step from `x` to `y` that leaves no vertex of `seen`. */
  ghost predicate WalkAvoiding(g: Graph, seen: set<Device>, x: Device, y: Device, p: seq<Device>) {
    && |p| > 1 && p[0] == x && p[|p| - 1] == y && Walk(g, p)
    && forall k {:trigger p[k]} :: 0 <= k < |p| - 1 ==> p[k] !in seen
  }

  ghost predicate ReachesAvoiding(g: Graph, seen: set<Device>, x: Device, y: Device) {
    exists p :: WalkAvoiding(g, seen, x, y, p)
  }

  /** `y` is reached from `x` by one step or more. */
  ghost predicate Reaches(g: Graph, x: Device, y: Device) {
    ReachesAvoiding(g, {}, x, y)
  }

  /** `y` is `x` or is reached from it. */
  ghost predicate ReachesOrIs(g: Graph, x: Device, y: Device) {
    x == y || Reaches(g, x, y)
  }

  /** A walk starts at a vertex that has successors and may be left. */
  lemma ReachesStarts(g: Graph, seen: set<Device>, x: Device, y: Device)
    requires ReachesAvoiding(g, seen, x, y)
    ensures x in g && x !in seen
  {
    var w :| WalkAvoiding(g, seen, x, y, w);
    assert Step(g, w[0], w[1]);
  }

  // ----- One step of the recursion -----

  lemma StepReaches(g: Graph, seen: set<Device>, x: Device, y: Device)
    requires Step(g, x, y) && x !in seen
    ensures ReachesAvoiding(g, seen, x, y)
  {
    assert WalkAvoiding(g, seen, x, y, [x, y]);
  }

  lemma PrependStep(g: Graph, seen: set<Device>, x: Device, p: Device, y: Device)
    requires x !in seen && Step(g, x, p) && ReachesAvoiding(g, seen + {x}, p, y)
    ensures ReachesAvoiding(g, seen, x, y)
  {
    var w :| WalkAvoiding(g, seen + {x}, p, y, w);
    var longer := [x] + w;
    forall k {:trigger longer[k]} | 0 < k < |longer| ensures Step(g, longer[k - 1], longer[k]) {
      assert longer[k] == w[k - 1];
      if k > 1 {
        assert longer[k - 1] == w[k - 2];
      }
    }
    forall k {:trigger longer[k]} | 0 <= k < |longer| - 1 ensures longer[k] !in seen {
      if k > 0 {
        assert longer[k] == w[k - 1];
      }
    }
    assert WalkAvoiding(g, seen, x, y, longer);
  }

  /** After its last departure from `x`, a walk avoids `x` for good. */
  lemma {:induction false} LastDeparture(g: Graph, seen: set<Device>, x: Device, y: Device, w: seq<Device>)
    returns (p: Device)
    requires WalkAvoiding(g, seen, x, y, w)
    ensures Step(g, x, p) && (p == y || ReachesAvoiding(g, seen + {x}, p, y))
    decreases |w|
  {
    p := w[1];
    assert Step(g, w[0], w[1]);
    if |w| > 2 {
      if k :| 0 < k < |w| - 1 && w[k] == x {
        LaterWalk(g, seen, x, y, w, k);
        p := LastDeparture(g, seen, x, y, w[k..]);
      } else {
        RestAvoids(g, seen, x, y, w);
      }
    }
  }

  lemma LaterWalk(g: Graph, seen: set<Device>, x: Device, y: Device, w: seq<Device>, k: nat)
    requires WalkAvoiding(g, seen, x, y, w) && k < |w| - 1
    ensures WalkAvoiding(g, seen, w[k], y, w[k..])
  {
    var later := w[k..];
    forall j {:trigger later[j]} | 0 < j < |later| ensures Step(g, later[j - 1], later[j]) {
      assert later[j] == w[k + j] && later[j - 1] == w[k + j - 1];
    }
    forall j {:trigger later[j]} | 0 <= j < |later| - 1 ensures later[j] !in seen {
      assert later[j] == w[k + j];
    }
  }

  lemma RestAvoids(g: Graph, seen: set<Device>, x: Device, y: Device, w: seq<Device>)
    requires WalkAvoiding(g, seen, x, y, w) && |w| > 2 && forall k :: 0 < k < |w| - 1 ==> w[k] != x
    ensures ReachesAvoiding(g, seen + {x}, w[1], y)
  {
    var rest := w[1..];
    LaterWalk(g, seen, x, y, w, 1);
    forall j {:trigger rest[j]} | 0 <= j < |rest| - 1 ensures rest[j] !in seen + {x} {
      assert rest[j] == w[j + 1];
    }
    assert WalkAvoiding(g, seen + {x}, w[1], y, rest);
  }

  /** What lies strictly beyond `x`: its successors, and what they reach without leaving `x` again. */
  lemma ReachesUnfolds(g: Graph, seen: set<Device>, x: Device, y: Device)
    requires x !in seen
    ensures ReachesAvoiding(g, seen, x, y) <==>
      Step(g, x, y) || exists p :: Step(g, x, p) && ReachesAvoiding(g, seen + {x}, p, y)
  {
    if ReachesAvoiding(g, seen, x, y) {
      var w :| WalkAvoiding(g, seen, x, y, w);
      var p := LastDeparture(g, seen, x, y, w);
    }
    if Step(g, x, y) {
      StepReaches(g, seen, x, y);
    }
    if p :| Step(g, x, p) && ReachesAvoiding(g, seen + {x}, p, y) {
      PrependStep(g, seen, x, p, y);
    }
  }

  // ----- Composition and reversal -----

  lemma ReachesStep(g: Graph, x: Device, y: Device, z: Device)
    requires ReachesOrIs(g, x, y) && Step(g, y, z)
    ensures Reaches(g, x, z)
  {
    if x == y {
      StepReaches(g, {}, x, z);
    } else {
      var w :| WalkAvoiding(g, {}, x, y, w);
      var longer := w + [z];
      forall k {:trigger longer[k]} | 0 < k < |longer| ensures Step(g, longer[k - 1], longer[k]) {
        assert longer[k - 1] == w[k - 1];
      }
      assert WalkAvoiding(g, {}, x, z, longer);
    }
  }

  /** `h` has exactly the edges of `g`, turned round. */
  ghost predicate Reversed(g: Graph, h: Graph) {
    forall x, y :: Step(g, x, y) <==> Step(h, y, x)
  }

  lemma ReversedWalk(g: Graph, h: Graph, x: Device, y: Device)
    requires Reversed(g, h) && Reaches(g, x, y)
    ensures Reaches(h, y, x)
  {
    var w :| WalkAvoiding(g, {}, x, y, w);
    var back := seq(|w|, k requires 0 <= k < |w| => w[|w| - 1 - k]);
    forall k {:trigger back[k]} | 0 < k < |back| ensures Step(h, back[k - 1], back[k]) {
      assert Step(g, w[|w| - 1 - k], w[|w| - k]);
    }
    assert WalkAvoiding(h, {}, y, x, back);
  }

  lemma ReversedReaches(g: Graph, h: Graph, x: Device, y: Device)
    requires Reversed(g, h)
    ensures Reaches(g, x, y) <==> Reaches(h, y, x)
  {
    if Reaches(g, x, y) {
      ReversedWalk(g, h, x, y);
    }
    if Reaches(h, y, x) {
      ReversedWalk(h, g, y, x);
    }
  }

  /** A set that holds the start and all successors of its members holds everything reached. */
  lemma {:induction false} ClosedUnderSteps(g: Graph, inside: set<Device>, w: seq<Device>, k: nat)
    requires Walk(g, w) && k < |w| && w[0] in inside
    requires forall x, y :: x in inside && Step(g, x, y) ==> y in inside
    ensures w[k] in inside
  {
    if k > 0 {
      ClosedUnderSteps(g, inside, w, k - 1);
      assert Step(g, w[k - 1], w[k]);
    }
  }
}
