/**
 The holder graph of block devices, walked three ways: ancestry by recursion with a path-local `seen` set
 (destination separation, system disks), and descendants by a worklist (storage inspection).
 */
module DeviceAncestry {
  import opened Reachability

  /** The text of a `major:minor` field: a canonical pair of numbers, or text that is refused. */
  datatype Label = Valid(device: Device) | Malformed(text: string)

  /** One holder record of a device. */
  datatype Holder = Holder(id: Label, holderType: string, holderName: string)

  /** Holder records by the device they are listed under. */
  type Holders = map<Label, seq<Holder>>

  /** `child` is listed as a holder of `parent`. */
  ghost predicate Holds(holders: Holders, parent: Device, child: Device) {
    Valid(parent) in holders && exists h :: h in holders[Valid(parent)] && h.id == Valid(child)
  }

  // ----- hostd/destination_separation.py -----

  /** The parents of every device: the holder records turned round. */
  method NormalizeHolders(holders: Holders) returns (parentsOf: Graph)
    ensures forall child, parent :: Step(parentsOf, child, parent) <==> Holds(holders, parent, child)
  {
    parentsOf := map[];
    var todo := holders.Keys;
    while todo != {}
      invariant todo <= holders.Keys
      invariant forall child, parent :: Step(parentsOf, child, parent) <==>
        Holds(holders, parent, child) && Valid(parent) !in todo
    {
      var key :| key in todo;
      ghost var before := parentsOf;
      if key.Valid? {
        var records := holders[key];
        for i := 0 to |records|
          invariant forall child, parent :: Step(parentsOf, child, parent) <==>
            Step(before, child, parent)
              || (parent == key.device && exists j :: 0 <= j < i && records[j].id == Valid(child))
        {
          if records[i].id.Valid? {
            var child := records[i].id.device;
            ghost var earlier := parentsOf;
            parentsOf := parentsOf[child := (if child in parentsOf then parentsOf[child] else []) + [key.device]];
            assert forall c, p :: Step(parentsOf, c, p) <==> Step(earlier, c, p) || (c == child && p == key.device);
          }
        }
      }
      todo := todo - {key};
    }
  }

  /** What `visit` returns: everything strictly above `node` on walks that leave no device of `seen`. */
  method Visit(parentsOf: Graph, node: Device, seen: set<Device>) returns (result: set<Device>)
    ensures forall m :: m in result <==> ReachesAvoiding(parentsOf, seen, node, m)
    decreases parentsOf.Keys - seen
  {
    if node in seen {
      forall m ensures !ReachesAvoiding(parentsOf, seen, node, m) {
        if ReachesAvoiding(parentsOf, seen, node, m) {
          ReachesStarts(parentsOf, seen, node, m);
        }
      }
      return {};
    }
    var parents := if node in parentsOf then set p | p in parentsOf[node] else {};
    result := parents;
    var todo := parents;
    while todo != {}
      invariant todo <= parents
      invariant forall m :: m in result <==>
        m in parents || exists p :: p in parents - todo && ReachesAvoiding(parentsOf, seen + {node}, p, m)
    {
      var parent :| parent in todo;
      assert node in parentsOf;
      assert parentsOf.Keys - (seen + {node}) < parentsOf.Keys - seen by {
        assert node in parentsOf.Keys - seen;
      }
      var above := Visit(parentsOf, parent, seen + {node});
      result := result + above;
      todo := todo - {parent};
    }
    forall m ensures m in result <==> ReachesAvoiding(parentsOf, seen, node, m) {
      ReachesUnfolds(parentsOf, seen, node, m);
      assert forall p :: p in parents <==> Step(parentsOf, node, p);
    }
  }

  /** The ancestry of a device that `expanded.get(device, set())` looks up. */
  function AncestryOf(expanded: map<Device, set<Device>>, device: Device): set<Device> {
    if device in expanded then expanded[device] else {}
  }

  /** `expanded` holds, for every device, exactly what is strictly above it. */
  ghost predicate IsAncestry(parentsOf: Graph, expanded: map<Device, set<Device>>) {
    forall x, m :: m in AncestryOf(expanded, x) <==> Reaches(parentsOf, x, m)
  }

  /** The ancestry of every device that has parents. */
  method ExpandAncestry(parentsOf: Graph) returns (expanded: map<Device, set<Device>>)
    ensures expanded.Keys == parentsOf.Keys && IsAncestry(parentsOf, expanded)
  {
    expanded := map[];
    var todo := parentsOf.Keys;
    while todo != {}
      invariant expanded.Keys == parentsOf.Keys - todo && todo <= parentsOf.Keys
      invariant forall x, m :: x in expanded ==> (m in expanded[x] <==> Reaches(parentsOf, x, m))
    {
      var node :| node in todo;
      var above := Visit(parentsOf, node, {});
      expanded := expanded[node := above];
      todo := todo - {node};
    }
    forall x, m ensures m in AncestryOf(expanded, x) <==> Reaches(parentsOf, x, m) {
      if x !in expanded {
        if Reaches(parentsOf, x, m) {
          ReachesStarts(parentsOf, {}, x, m);
        }
      }
    }
  }

  // ----- hostd/storage_inspection.py -----

  /** Everything some device of `sources` reaches, and those devices themselves. */
  ghost predicate IsDownstream(g: Graph, sources: set<Device>, m: Device) {
    exists s :: s in sources && ReachesOrIs(g, s, m)
  }

  ghost function Targets(g: Graph): set<Device> {
    set x, y | x in g && y in g[x] :: y
  }

  /** The inner loop: every child not yet related becomes related and pending. */
  method AddChildren(children: seq<Device>, related: set<Device>, pending: seq<Device>)
    returns (more: set<Device>, waiting: seq<Device>)
    ensures more == related + set c | c in children
    ensures pending <= waiting && (more == related ==> waiting == pending)
    ensures forall x :: x in waiting <==> x in pending || (x in more && x !in related)
  {
    more, waiting := related, pending;
    for i := 0 to |children|
      invariant more == related + set c | c in children[..i]
      invariant pending <= waiting && (more == related ==> waiting == pending)
      invariant forall x :: x in waiting <==> x in pending || (x in more && x !in related)
    {
      if children[i] !in more {
        more := more + {children[i]};
        waiting := waiting + [children[i]];
      }
    }
  }

  /** `holders.get(current, [])`. */
  function ChildrenOf(g: Graph, current: Device): seq<Device> {
    if current in g then g[current] else []
  }

  /** Every related device is pending, or all its children are related. */
  ghost predicate Closed(g: Graph, related: set<Device>, pending: seq<Device>) {
    forall x, y {:trigger Step(g, x, y)} :: x in related && Step(g, x, y) ==> y in related || x in pending
  }

  ghost predicate AllDownstream(g: Graph, sources: set<Device>, related: set<Device>) {
    forall m :: m in related ==> IsDownstream(g, sources, m)
  }

  lemma ClosedAfterStep(
    g: Graph, current: Device, related: set<Device>, rest: seq<Device>, more: set<Device>, waiting: seq<Device>)
    requires Closed(g, related, rest + [current])
    requires more == related + set c | c in ChildrenOf(g, current)
    requires rest <= waiting && forall x :: x in more && x !in related ==> x in waiting
    ensures Closed(g, more, waiting)
  {
    forall x, y {:trigger Step(g, x, y)} | x in more && Step(g, x, y) ensures y in more || x in waiting {
      if x in related && x != current && y !in related {
        assert x in rest + [current];
      }
    }
  }

  lemma DownstreamAfterStep(g: Graph, sources: set<Device>, current: Device, related: set<Device>, more: set<Device>)
    requires AllDownstream(g, sources, related) && current in related
    requires more == related + set c | c in ChildrenOf(g, current)
    ensures AllDownstream(g, sources, more) && more <= related + Targets(g)
  {
    ChildrenAreDownstream(g, sources, current);
    forall m | m in more ensures IsDownstream(g, sources, m) && m in related + Targets(g) {
      if m !in related {
        assert Step(g, current, m);
      }
    }
  }

  /** A set with nothing pending is everything downstream. */
  lemma ClosedIsDownstream(g: Graph, sources: set<Device>, related: set<Device>)
    requires sources <= related && Closed(g, related, []) && AllDownstream(g, sources, related)
    ensures forall m :: m in related <==> IsDownstream(g, sources, m)
  {
    forall m | IsDownstream(g, sources, m) ensures m in related {
      var s :| s in sources && ReachesOrIs(g, s, m);
      if s != m {
        var w :| WalkAvoiding(g, {}, s, m, w);
        ClosedUnderSteps(g, related, w, |w| - 1);
      }
    }
  }

  lemma LessIsLeft(universe: set<Device>, related: set<Device>, more: set<Device>)
    requires related <= more <= universe
    ensures more == related || universe - more < universe - related
  {
    if c :| c in more && c !in related {
      assert c in universe - related && c !in universe - more;
    }
  }

  lemma SourcesAreDownstream(g: Graph, sources: set<Device>)
    ensures AllDownstream(g, sources, sources)
  {
    forall s | s in sources ensures IsDownstream(g, sources, s) {
      assert ReachesOrIs(g, s, s);
    }
  }

  /** The worklist closure of `_with_descendants`. */
  method WithDescendants(sources: set<Device>, sourceList: seq<Device>, holdersOf: Graph) returns (related: set<Device>)
    requires sources == set s | s in sourceList
    ensures forall m :: m in related <==> IsDownstream(holdersOf, sources, m)
  {
    related := sources;
    var pending := sourceList;
    ghost var universe := sources + Targets(holdersOf);
    SourcesAreDownstream(holdersOf, sources);
    while pending != []
      invariant sources <= related <= universe && forall x :: x in pending ==> x in related
      invariant AllDownstream(holdersOf, sources, related) && Closed(holdersOf, related, pending)
      decreases universe - related, |pending|
    {
      var rest, current := pending[..|pending| - 1], pending[|pending| - 1];
      assert pending == rest + [current];
      var more, waiting := AddChildren(ChildrenOf(holdersOf, current), related, rest);
      ClosedAfterStep(holdersOf, current, related, rest, more, waiting);
      DownstreamAfterStep(holdersOf, sources, current, related, more);
      LessIsLeft(universe, related, more);
      related, pending := more, waiting;
    }
    ClosedIsDownstream(holdersOf, sources, related);
  }

  lemma ChildrenAreDownstream(g: Graph, sources: set<Device>, current: Device)
    requires IsDownstream(g, sources, current)
    ensures forall child :: Step(g, current, child) ==> IsDownstream(g, sources, child)
  {
    var s :| s in sources && ReachesOrIs(g, s, current);
    forall child | Step(g, current, child) ensures IsDownstream(g, sources, child) {
      ReachesStep(g, s, current, child);
    }
  }

  // ----- The three walks agree -----

  /** The parent lists have an edge for every record, turned round. */
  ghost predicate TurnedRound(holders: Holders, parentsOf: Graph) {
    forall c, p :: Step(parentsOf, c, p) <==> Holds(holders, p, c)
  }

  /** The forward graph has an edge for every record, the parent lists have it turned round. */
  ghost predicate Describes(holders: Holders, holdersOf: Graph, parentsOf: Graph) {
    && (forall p, c :: Step(holdersOf, p, c) <==> Holds(holders, p, c))
    && TurnedRound(holders, parentsOf)
  }

  /** `m` is downstream of the sources exactly when a source is `m` or stands in its ancestry. */
  lemma DescendantsAreDualToAncestry(
    holders: Holders, holdersOf: Graph, parentsOf: Graph, expanded: map<Device, set<Device>>,
    sources: set<Device>, m: Device)
    requires Describes(holders, holdersOf, parentsOf) && IsAncestry(parentsOf, expanded)
    ensures IsDownstream(holdersOf, sources, m) <==> sources * ({m} + AncestryOf(expanded, m)) != {}
  {
    assert Reversed(holdersOf, parentsOf);
    if IsDownstream(holdersOf, sources, m) {
      var s :| s in sources && ReachesOrIs(holdersOf, s, m);
      ReversedReaches(holdersOf, parentsOf, s, m);
      assert s in sources * ({m} + AncestryOf(expanded, m));
    }
    if s :| s in sources * ({m} + AncestryOf(expanded, m)) {
      ReversedReaches(holdersOf, parentsOf, s, m);
      assert s in sources && ReachesOrIs(holdersOf, s, m);
    }
  }

  /** Some device carries both `x` and `y`. */
  ghost predicate ShareDevice(parentsOf: Graph, x: Device, y: Device, d: Device) {
    ReachesOrIs(parentsOf, x, d) && ReachesOrIs(parentsOf, y, d)
  }

  ghost predicate IsShared(parentsOf: Graph, sources: set<Device>, mount: Device, overlap: set<Device>) {
    forall d :: d in overlap <==> exists s :: s in sources && ShareDevice(parentsOf, s, mount, d)
  }

  /** The devices that carry the mount and one of the sources, in the holder records turned round. */
  ghost predicate IsOverlap(holders: Holders, sources: set<Device>, mount: Device, overlap: set<Device>) {
    exists parentsOf :: TurnedRound(holders, parentsOf) && IsShared(parentsOf, sources, mount, overlap)
  }

  /** The overlap decision of `evaluate_destination_separation`, for a destination on `mount`. */
  method SharedPhysicalDevices(holders: Holders, sources: set<Device>, mount: Device)
    returns (overlap: set<Device>)
    ensures IsOverlap(holders, sources, mount, overlap)
  {
    var parents := NormalizeHolders(holders);
    var ancestry := ExpandAncestry(parents);
    var sourceAncestry := sources;
    var todo := sources;
    while todo != {}
      invariant todo <= sources
      invariant forall d :: d in sourceAncestry <==>
        d in sources || exists s :: s in sources - todo && Reaches(parents, s, d)
    {
      var s :| s in todo;
      sourceAncestry := sourceAncestry + AncestryOf(ancestry, s);
      todo := todo - {s};
    }
    overlap := sourceAncestry * ({mount} + AncestryOf(ancestry, mount));
    assert TurnedRound(holders, parents);
    forall d ensures d in overlap <==> exists s :: s in sources && ShareDevice(parents, s, mount, d) {
      if d in overlap {
        if d in sources {
          assert ShareDevice(parents, d, mount, d);
        } else {
          var s :| s in sources && Reaches(parents, s, d);
          assert ShareDevice(parents, s, mount, d);
        }
      }
    }
  }

  /** A destination mounted on anything downstream of the source overlaps it, so it is never judged separate. */
  lemma DownstreamMountOverlaps(
    holders: Holders, holdersOf: Graph, sources: set<Device>, mount: Device, overlap: set<Device>)
    requires forall p, c :: Step(holdersOf, p, c) <==> Holds(holders, p, c)
    requires IsDownstream(holdersOf, sources, mount) && IsOverlap(holders, sources, mount, overlap)
    ensures overlap != {}
  {
    var parentsOf :| TurnedRound(holders, parentsOf) && IsShared(parentsOf, sources, mount, overlap);
    assert Reversed(holdersOf, parentsOf);
    var s :| s in sources && ReachesOrIs(holdersOf, s, mount);
    ReversedReaches(holdersOf, parentsOf, s, mount);
    assert ShareDevice(parentsOf, s, mount, s);
    assert s in overlap;
  }

  // ----- hostd/system_disks.py -----

  function ValidDevices(keys: seq<Label>): seq<Device> {
    if keys == [] then []
    else (if keys[0].Valid? then [keys[0].device] else []) + ValidDevices(keys[1..])
  }

  lemma {:induction false} ValidDevicesAre(keys: seq<Label>, d: Device)
    ensures d in ValidDevices(keys) <==> Valid(d) in keys
  {
    if keys != [] {
      ValidDevicesAre(keys[1..], d);
    }
  }

  /** The parents given for each device, without the entries that are not valid identities. */
  function ValidParents(ancestry: map<Label, seq<Label>>): Graph {
    map key | key in ancestry && key.Valid? :: key.device := ValidDevices(ancestry[key])
  }

  /** `_expand_ancestry` of the system-disk check, which skips invalid identities on its way up. */
  method ExpandValidAncestry(ancestry: map<Label, seq<Label>>) returns (expanded: map<Device, set<Device>>)
    ensures IsAncestry(ValidParents(ancestry), expanded)
    ensures forall child, parent :: Step(ValidParents(ancestry), child, parent) <==>
      Valid(child) in ancestry && Valid(parent) in ancestry[Valid(child)]
  {
    expanded := ExpandAncestry(ValidParents(ancestry));
    forall child, parent ensures Step(ValidParents(ancestry), child, parent) <==>
      Valid(child) in ancestry && Valid(parent) in ancestry[Valid(child)]
    {
      if Valid(child) in ancestry {
        ValidDevicesAre(ancestry[Valid(child)], parent);
        assert child in ValidParents(ancestry);
      }
    }
  }

  /** `_matches_source`: the protected device is one of the sources, or stands on one of them. */
  method MatchesSource(
    sources: set<Device>, protectedDevice: Device, ancestry: map<Device, set<Device>>, ghost parentsOf: Graph)
    returns (denied: bool)
    requires IsAncestry(parentsOf, ancestry)
    ensures denied <==> exists s :: s in sources && ReachesOrIs(parentsOf, protectedDevice, s)
  {
    if protectedDevice in sources {
      assert ReachesOrIs(parentsOf, protectedDevice, protectedDevice);
      return true;
    }
    var shared := sources * AncestryOf(ancestry, protectedDevice);
    denied := shared != {};
    if denied {
      var s :| s in shared;
      assert s in AncestryOf(ancestry, protectedDevice);
      assert ReachesOrIs(parentsOf, protectedDevice, s);
    } else {
      forall s | s in sources ensures !ReachesOrIs(parentsOf, protectedDevice, s) {
        assert s !in shared;
        assert s !in AncestryOf(ancestry, protectedDevice);
      }
    }
  }
}
