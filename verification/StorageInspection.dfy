/** The other walks of hostd/storage_inspection.py: normalising the holder records, reading and listing the graph. */
module StorageInspection {
  import opened Collections
  import opened Reachability
  import opened DeviceAncestry

  // ----- _normalize_holders -----

  /** A normalised holder of one device. */
  datatype Record = Record(device: Device, holderType: string, holderName: string)

  /** What a run of records says about one holder: nothing, one description, or several. */
  datatype Verdict = Unmentioned | Described(holderType: string, holderName: string) | Ambiguous

  ghost function VerdictOn(records: seq<Holder>, n: nat, d: Device): Verdict
    requires n <= |records|
  {
    if n == 0 then Unmentioned
    else
      var before := VerdictOn(records, n - 1, d);
      var h := records[n - 1];
      if h.id != Valid(d) then before
      else if before == Unmentioned then Described(h.holderType, h.holderName)
      else if before == Described(h.holderType, h.holderName) then before
      else Ambiguous
  }

  /** The verdict is ambiguous exactly when two records describe the holder differently. */
  lemma {:induction false} VerdictIsAmbiguousIff(records: seq<Holder>, n: nat, d: Device)
    requires n <= |records|
    ensures VerdictOn(records, n, d) == Unmentioned <==> forall i :: 0 <= i < n ==> records[i].id != Valid(d)
    ensures VerdictOn(records, n, d).Described? ==> forall i :: 0 <= i < n && records[i].id == Valid(d) ==>
      VerdictOn(records, n, d) == Described(records[i].holderType, records[i].holderName)
    ensures VerdictOn(records, n, d) == Ambiguous <==>
      exists i, j :: 0 <= i < j < n && records[i].id == Valid(d) && records[j].id == Valid(d)
        && (records[i].holderType != records[j].holderType || records[i].holderName != records[j].holderName)
  {
    if n > 0 {
      VerdictIsAmbiguousIff(records, n - 1, d);
      var before, h := VerdictOn(records, n - 1, d), records[n - 1];
      if h.id == Valid(d) && before.Described? && before != Described(h.holderType, h.holderName) {
        var i :| 0 <= i < n - 1 && records[i].id == Valid(d);
        assert before == Described(records[i].holderType, records[i].holderName);
      }
    }
  }

  /** The normalised entry for a verdict. */
  function Entry(d: Device, v: Verdict): Record
    requires !v.Unmentioned?
  {
    match v
    case Described(holderType, holderName) => Record(d, holderType, holderName)
    case Ambiguous => Record(d, "unsupported", "ambiguous-holder")
  }

  ghost function Devices(list: seq<Record>): set<Device> {
    set r | r in list :: r.device
  }

  /** One entry per holder mentioned by the first `n` records, stating the verdict on it. */
  ghost predicate Normalized(records: seq<Holder>, n: nat, list: seq<Record>)
    requires n <= |records|
  {
    && (forall a, b :: 0 <= a < b < |list| ==> list[a].device != list[b].device)
    && (forall k {:trigger list[k]} :: 0 <= k < |list| ==>
          VerdictOn(records, n, list[k].device) != Unmentioned
          && list[k] == Entry(list[k].device, VerdictOn(records, n, list[k].device)))
    && (forall d {:trigger VerdictOn(records, n, d)} :: VerdictOn(records, n, d) != Unmentioned ==> d in Devices(list))
  }

  /** The inner loop of `_normalize_holders`: existing entries are overwritten in place on conflict. */
  method NormalizeRecords(records: seq<Holder>) returns (list: seq<Record>)
    ensures Normalized(records, |records|, list)
  {
    list := [];
    for n := 0 to |records|
      invariant Normalized(records, n, list)
    {
      if records[n].id.Valid? {
        var r := Record(records[n].id.device, records[n].holderType, records[n].holderName);
        var k := 0;
        while k < |list| && list[k].device != r.device
          invariant k <= |list| && forall a :: 0 <= a < k ==> list[a].device != r.device
        {
          k := k + 1;
        }
        NormalizedStep(records, n, list, k);
        if k == |list| {
          list := list + [r];
        } else if list[k] != r {
          list := list[k := Record(r.device, "unsupported", "ambiguous-holder")];
        }
      } else {
        NormalizedStep(records, n, list, |list|);
      }
    }
  }

  /** The list after one more record, whose holder stands at `k` if it stands anywhere. */
  function Updated(list: seq<Record>, h: Holder, k: nat): seq<Record>
    requires k <= |list|
  {
    if !h.id.Valid? then list
    else
      var r := Record(h.id.device, h.holderType, h.holderName);
      if k == |list| then list + [r]
      else if list[k] != r then list[k := Record(r.device, "unsupported", "ambiguous-holder")]
      else list
  }

  lemma NormalizedStep(records: seq<Holder>, n: nat, list: seq<Record>, k: nat)
    requires n < |records| && Normalized(records, n, list) && k <= |list|
    requires records[n].id.Valid? && k < |list| ==> list[k].device == records[n].id.device
    requires records[n].id.Valid? && k == |list| ==> forall a :: 0 <= a < k ==> list[a].device != records[n].id.device
    ensures Normalized(records, n + 1, Updated(list, records[n], k))
  {
    var after := Updated(list, records[n], k);
    forall m {:trigger after[m]} | 0 <= m < |after|
      ensures VerdictOn(records, n + 1, after[m].device) != Unmentioned
      ensures after[m] == Entry(after[m].device, VerdictOn(records, n + 1, after[m].device))
    {
      if m < |list| {
        assert VerdictOn(records, n, list[m].device) != Unmentioned;
      } else {
        assert VerdictOn(records, n, after[m].device) != Unmentioned ==> after[m].device in Devices(list);
      }
    }
    forall d {:trigger VerdictOn(records, n + 1, d)} | VerdictOn(records, n + 1, d) != Unmentioned
      ensures d in Devices(after)
    {
      if VerdictOn(records, n, d) != Unmentioned {
        var r :| r in list && r.device == d;
        var i :| 0 <= i < |list| && list[i] == r;
        assert after[i].device == d && after[i] in after;
      } else {
        assert after[|list|].device == d && after[|list|] in after;
      }
    }
  }

  /** Two records describe the holder differently. */
  ghost predicate Disagree(records: seq<Holder>, d: Device) {
    exists i, j ::
      0 <= i < j < |records| && records[i].id == Valid(d) && records[j].id == Valid(d)
      && (records[i].holderType != records[j].holderType || records[i].holderName != records[j].holderName)
  }

  /** Some record says just this. */
  ghost predicate Says(records: seq<Holder>, e: Record) {
    exists i ::
      0 <= i < |records| && records[i].id == Valid(e.device) && e.holderType == records[i].holderType
      && e.holderName == records[i].holderName
  }

  /** An entry states what all records of its holder agree on, or that the holder is ambiguous. */
  lemma EntrySaysWhatRecordsSay(records: seq<Holder>, list: seq<Record>, k: nat)
    requires Normalized(records, |records|, list) && k < |list|
    ensures var e := list[k];
      if Disagree(records, e.device) then e.holderType == "unsupported" && e.holderName == "ambiguous-holder"
      else Says(records, e)
  {
    VerdictIsAmbiguousIff(records, |records|, list[k].device);
  }

  /** The normalised records of every device that has any. */
  type RecordLists = map<Device, seq<Record>>

  ghost predicate ListedAt(holders: Holders, lists: RecordLists, p: Device) {
    if p in lists then
      Valid(p) in holders && lists[p] != [] && Normalized(holders[Valid(p)], |holders[Valid(p)]|, lists[p])
    else
      Valid(p) in holders ==> Normalized(holders[Valid(p)], |holders[Valid(p)]|, [])
  }

  /** The outer loop of `_normalize_holders`. */
  method NormalizeLists(holders: Holders) returns (lists: RecordLists)
    ensures forall p :: ListedAt(holders, lists, p)
  {
    lists := map[];
    var todo := holders.Keys;
    while todo != {}
      invariant todo <= holders.Keys
      invariant forall p :: if Valid(p) in todo then p !in lists else ListedAt(holders, lists, p)
    {
      var key :| key in todo;
      ghost var before := lists;
      if key.Valid? {
        var list := NormalizeRecords(holders[key]);
        if list != [] {
          lists := lists[key.device := list];
        }
      }
      todo := todo - {key};
      forall p ensures if Valid(p) in todo then p !in lists else ListedAt(holders, lists, p) {
        assert Valid(p) != key ==> (p in lists <==> p in before) && (p in lists ==> lists[p] == before[p]);
        assert Valid(p) in todo + {key} || ListedAt(holders, before, p);
      }
    }
  }

  /** The graph that the walks below follow: the device of every entry. */
  function GraphOf(lists: RecordLists): Graph {
    map p | p in lists :: seq(|lists[p]|, i requires 0 <= i < |lists[p]| => lists[p][i].device)
  }

  /** It has an edge exactly where a valid device lists a valid holder. */
  lemma NormalizedGraphHolds(holders: Holders, lists: RecordLists, p: Device, c: Device)
    requires ListedAt(holders, lists, p)
    ensures Step(GraphOf(lists), p, c) <==> Holds(holders, p, c)
  {
    if Valid(p) in holders {
      var records := holders[Valid(p)];
      VerdictIsAmbiguousIff(records, |records|, c);
      if p in lists {
        ListedDevice(records, lists[p], c);
        assert Step(GraphOf(lists), p, c) <==> c in Devices(lists[p]) by {
          DevicesOf(lists, p, c);
        }
      }
    }
  }

  lemma DevicesOf(lists: RecordLists, p: Device, c: Device)
    requires p in lists
    ensures c in GraphOf(lists)[p] <==> c in Devices(lists[p])
  {
    var list := lists[p];
    if c in Devices(list) {
      var i :| 0 <= i < |list| && list[i].device == c;
      assert GraphOf(lists)[p][i] == c;
    }
    if c in GraphOf(lists)[p] {
      var i :| 0 <= i < |list| && GraphOf(lists)[p][i] == c;
      assert list[i] in list;
    }
  }

  /** A device has an entry exactly if a record names it. */
  lemma ListedDevice(records: seq<Holder>, list: seq<Record>, c: Device)
    requires Normalized(records, |records|, list)
    ensures c in Devices(list) <==> VerdictOn(records, |records|, c) != Unmentioned
  {
    if c in Devices(list) {
      var i :| 0 <= i < |list| && list[i].device == c;
    }
  }

  /** So the two walks of the holder records, downwards and upwards, are dual. */
  lemma NormalizedDescribes(holders: Holders, lists: RecordLists, parentsOf: Graph)
    requires (forall p :: ListedAt(holders, lists, p)) && TurnedRound(holders, parentsOf)
    ensures Describes(holders, GraphOf(lists), parentsOf)
  {
    forall p, c ensures Step(GraphOf(lists), p, c) <==> Holds(holders, p, c) {
      NormalizedGraphHolds(holders, lists, p, c);
    }
  }

  // ----- _related_holders -----

  type Edge = (Device, Device)

  /** The edges listed for a device: `holders.get(current, [])` as pairs. */
  function EdgesFrom(g: Graph, x: Device): seq<Edge> {
    seq(|ChildrenOf(g, x)|, i requires 0 <= i < |ChildrenOf(g, x)| => (x, ChildrenOf(g, x)[i]))
  }

  ghost predicate IsEdge(g: Graph, e: Edge) {
    Step(g, e.0, e.1)
  }

  lemma EdgesFromAre(g: Graph, x: Device, e: Edge)
    ensures e in EdgesFrom(g, x) <==> e.0 == x && IsEdge(g, e)
  {
    var children := ChildrenOf(g, x);
    if e.0 == x && IsEdge(g, e) {
      var i :| 0 <= i < |children| && children[i] == e.1;
      assert EdgesFrom(g, x)[i] == e;
    }
  }

  /** `list` enumerates `s`, without repetition. */
  ghost predicate Enumerates(list: seq<Edge>, s: set<Edge>) {
    && (forall i {:trigger list[i]} :: 0 <= i < |list| ==> list[i] in s)
    && (forall e :: e in s ==> e in list)
    && Distinct(list)
  }

  /** `waiting` is `pending` and the ends of the edges of `more` that are not in `seen`. */
  ghost predicate Extends(pending: seq<Device>, waiting: seq<Device>, seen: set<Edge>, more: set<Edge>) {
    && pending <= waiting && (more == seen ==> waiting == pending)
    && (forall x :: x in waiting <==> x in pending || exists e :: e in more - seen && e.1 == x)
  }

  lemma EnumeratesMore(list: seq<Edge>, s: set<Edge>, e: Edge)
    requires Enumerates(list, s) && e !in s
    ensures Enumerates(list + [e], s + {e})
  {
  }

  lemma ExtendsMore(pending: seq<Device>, waiting: seq<Device>, seen: set<Edge>, more: set<Edge>, e: Edge)
    requires Extends(pending, waiting, seen, more) && seen <= more && e !in more
    ensures Extends(pending, waiting + [e.1], seen, more + {e})
  {
    forall x ensures x in waiting + [e.1] <==> x in pending || exists f :: f in more + {e} - seen && f.1 == x {
      if x in waiting && x !in pending {
        var f :| f in more - seen && f.1 == x;
        assert f in more + {e} - seen;
      }
      if x == e.1 {
        assert e in more + {e} - seen;
      }
    }
  }

  /** Appends the edges not seen before, and the devices they lead to. */
  method AddEdges(edges: seq<Edge>, seen: set<Edge>, listed: seq<Edge>, pending: seq<Device>)
    returns (more: set<Edge>, list: seq<Edge>, waiting: seq<Device>)
    requires Enumerates(listed, seen)
    ensures Enumerates(list, more) && Extends(pending, waiting, seen, more)
    ensures seen <= more && forall e :: e in more <==> e in seen || e in edges
  {
    more, list, waiting := seen, listed, pending;
    for i := 0 to |edges|
      invariant Enumerates(list, more) && Extends(pending, waiting, seen, more)
      invariant seen <= more && forall e :: e in more <==> e in seen || e in edges[..i]
    {
      if edges[i] !in more {
        EnumeratesMore(list, more, edges[i]);
        ExtendsMore(pending, waiting, seen, more, edges[i]);
        more := more + {edges[i]};
        list := list + [edges[i]];
        waiting := waiting + [edges[i].1];
      }
    }
  }

  /** Every device reached so far is pending, or all its edges were seen. */
  ghost predicate EdgesClosed(g: Graph, sources: set<Device>, seen: set<Edge>, pending: seq<Device>) {
    && (forall e {:trigger IsEdge(g, e)} :: IsEdge(g, e) && e.0 in sources && e.0 !in pending ==> e in seen)
    && (forall e, f {:trigger IsEdge(g, e), f in seen} ::
          f in seen && IsEdge(g, e) && e.0 == f.1 && e.0 !in pending ==> e in seen)
  }

  /** Only edges whose parent is downstream were seen. */
  ghost predicate EdgesSound(g: Graph, sources: set<Device>, seen: set<Edge>, pending: seq<Device>) {
    && (forall e :: e in seen ==> IsEdge(g, e) && IsDownstream(g, sources, e.0))
    && (forall x :: x in pending ==> IsDownstream(g, sources, x))
  }

  ghost function AllEdges(g: Graph): set<Edge> {
    set x, y | x in g && y in g[x] :: (x, y)
  }

  lemma EdgesStep(
    g: Graph, sources: set<Device>, seen: set<Edge>, rest: seq<Device>, current: Device,
    more: set<Edge>, waiting: seq<Device>)
    requires EdgesSound(g, sources, seen, rest + [current]) && EdgesClosed(g, sources, seen, rest + [current])
    requires seen <= more && forall e :: e in more <==> e in seen || e in EdgesFrom(g, current)
    requires Extends(rest, waiting, seen, more)
    ensures EdgesSound(g, sources, more, waiting) && EdgesClosed(g, sources, more, waiting)
  {
    assert current in rest + [current];
    ChildrenAreDownstream(g, sources, current);
    forall e | e in more ensures IsEdge(g, e) && IsDownstream(g, sources, e.0) && (e !in seen ==> e.0 == current) {
      EdgesFromAre(g, current, e);
    }
    forall x | x in waiting ensures IsDownstream(g, sources, x) {
      if x in rest {
        assert x in rest + [current];
      } else {
        var e :| e in more - seen && e.1 == x;
        assert Step(g, current, x);
      }
    }
    forall e {:trigger IsEdge(g, e)} | IsEdge(g, e) && e.0 in sources && e.0 !in waiting ensures e in more {
      EdgesFromAre(g, current, e);
    }
    forall e, f {:trigger IsEdge(g, e), f in more} |
      f in more && IsEdge(g, e) && e.0 == f.1 && e.0 !in waiting ensures e in more
    {
      EdgesFromAre(g, current, e);
    }
  }

  /** With nothing pending, every edge below the sources was seen. */
  lemma EdgesComplete(g: Graph, sources: set<Device>, seen: set<Edge>, e: Edge)
    requires EdgesClosed(g, sources, seen, []) && IsEdge(g, e) && IsDownstream(g, sources, e.0)
    ensures e in seen
  {
    var s :| s in sources && ReachesOrIs(g, s, e.0);
    if s != e.0 {
      var w :| WalkAvoiding(g, {}, s, e.0, w);
      LastEdgeSeen(g, sources, seen, w, |w| - 1);
      assert IsEdge(g, e) && (w[|w| - 2], w[|w| - 1]) in seen;
    }
  }

  lemma {:induction false} LastEdgeSeen(g: Graph, sources: set<Device>, seen: set<Edge>, w: seq<Device>, k: nat)
    requires EdgesClosed(g, sources, seen, []) && Walk(g, w) && 0 < k < |w| && w[0] in sources
    ensures (w[k - 1], w[k]) in seen
  {
    assert Step(g, w[k - 1], w[k]);
    assert IsEdge(g, (w[k - 1], w[k]));
    if k > 1 {
      LastEdgeSeen(g, sources, seen, w, k - 1);
    }
  }

  /** `_related_holders`: every edge whose parent is downstream of the sources, each listed once. */
  method RelatedHolders(sources: set<Device>, sourceList: seq<Device>, g: Graph) returns (related: seq<Edge>)
    requires sources == set s | s in sourceList
    ensures forall e :: e in related <==> IsEdge(g, e) && IsDownstream(g, sources, e.0)
    ensures Distinct(related)
  {
    related := [];
    var pending, seen: set<Edge> := sourceList, {};
    SourcesAreDownstream(g, sources);
    while pending != []
      invariant EdgesSound(g, sources, seen, pending) && EdgesClosed(g, sources, seen, pending)
      invariant Enumerates(related, seen)
      decreases AllEdges(g) - seen, |pending|
    {
      var rest, current := pending[..|pending| - 1], pending[|pending| - 1];
      assert pending == rest + [current];
      var more, list, waiting := AddEdges(EdgesFrom(g, current), seen, related, rest);
      EdgesStep(g, sources, seen, rest, current, more, waiting);
      EdgesShrink(g, seen, more);
      related, seen, pending := list, more, waiting;
    }
    EdgesAreDownstream(g, sources, seen);
  }

  lemma EdgesAreDownstream(g: Graph, sources: set<Device>, seen: set<Edge>)
    requires EdgesSound(g, sources, seen, []) && EdgesClosed(g, sources, seen, [])
    ensures forall e :: e in seen <==> IsEdge(g, e) && IsDownstream(g, sources, e.0)
  {
    forall e | IsEdge(g, e) && IsDownstream(g, sources, e.0) ensures e in seen {
      EdgesComplete(g, sources, seen, e);
    }
  }

  lemma EdgesShrink(g: Graph, seen: set<Edge>, more: set<Edge>)
    requires seen <= more && forall e :: e in more ==> IsEdge(g, e)
    ensures more == seen || AllEdges(g) - more < AllEdges(g) - seen
  {
    if e :| e in more && e !in seen {
      assert e in AllEdges(g) - seen && e !in AllEdges(g) - more;
    }
  }

  // ----- read_holder_graph -----

  /** The holders that the kernel reports for each device whose directory can be read. */
  type Sysfs = map<Device, seq<Label>>

  ghost function FullGraph(sysfs: Sysfs): Graph {
    map d | d in sysfs :: ValidDevices(sysfs[d])
  }

  /** The part of the full graph that lies below the visited devices. */
  ghost predicate ReadSoFar(full: Graph, visited: set<Device>, graph: Graph) {
    forall x, y :: Step(graph, x, y) <==> Step(full, x, y) && x in visited
  }

  ghost predicate VisitedClosed(full: Graph, sources: set<Device>, visited: set<Device>, pending: seq<Device>) {
    && (forall s :: s in sources ==> s in visited || s in pending)
    && (forall x, y {:trigger Step(full, x, y)} :: x in visited && Step(full, x, y) ==> y in visited || y in pending)
    && (forall x :: x in visited || x in pending ==> IsDownstream(full, sources, x))
  }

  lemma VisitStep(
    full: Graph, sources: set<Device>, visited: set<Device>, rest: seq<Device>, parent: Device)
    requires VisitedClosed(full, sources, visited, rest + [parent])
    ensures parent in visited ==> VisitedClosed(full, sources, visited, rest)
    ensures VisitedClosed(full, sources, visited + {parent}, rest + ChildrenOf(full, parent))
  {
    assert parent in rest + [parent];
    assert forall x :: x in rest + [parent] <==> x in rest || x == parent;
    ChildrenAreDownstream(full, sources, parent);
    forall x | x in ChildrenOf(full, parent) ensures Step(full, parent, x) {}
  }

  lemma VisitedIsDownstream(full: Graph, sources: set<Device>, visited: set<Device>)
    requires VisitedClosed(full, sources, visited, [])
    ensures forall x :: x in visited <==> IsDownstream(full, sources, x)
  {
    forall x | IsDownstream(full, sources, x) ensures x in visited {
      var s :| s in sources && ReachesOrIs(full, s, x);
      if s != x {
        var w :| WalkAvoiding(full, {}, s, x, w);
        ClosedUnderSteps(full, visited, w, |w| - 1);
      }
    }
  }

  lemma ReadStep(full: Graph, visited: set<Device>, graph: Graph, parent: Device)
    requires ReadSoFar(full, visited, graph) && parent !in visited
    ensures ReadSoFar(full, visited + {parent},
                      if ChildrenOf(full, parent) != [] then graph[parent := ChildrenOf(full, parent)] else graph)
  {
  }

  lemma FewerToVisit(full: Graph, sources: set<Device>, visited: set<Device>, parent: Device)
    requires IsDownstream(full, sources, parent) && parent !in visited
    ensures sources + Targets(full) - (visited + {parent}) < sources + Targets(full) - visited
  {
    DownstreamIsKnown(full, sources, parent);
    assert parent in sources + Targets(full) - visited;
  }

  /** The holders the kernel reports for one device; none when its directory cannot be read. */
  function ReadChildren(sysfs: Sysfs, parent: Device): (children: seq<Device>)
    ensures children == ChildrenOf(FullGraph(sysfs), parent)
  {
    if parent in sysfs then ValidDevices(sysfs[parent]) else []
  }

  /** Reads the holders of everything downstream of the sources, and of nothing else. */
  method ReadHolderGraph(sysfs: Sysfs, sourceList: seq<Device>, sources: set<Device>, ghost full: Graph)
    returns (graph: Graph)
    requires sources == (set s | s in sourceList) && full == FullGraph(sysfs)
    ensures IsRead(full, sources, graph)
  {
    graph := map[];
    SourcesAreDownstream(full, sources);
    var pending, visited: set<Device> := sourceList, {};
    while pending != []
      invariant ReadSoFar(full, visited, graph) && VisitedClosed(full, sources, visited, pending)
      decreases sources + Targets(full) - visited, |pending|
    {
      var rest, parent := pending[..|pending| - 1], pending[|pending| - 1];
      assert pending == rest + [parent];
      VisitStep(full, sources, visited, rest, parent);
      if parent in visited {
        pending := rest;
      } else {
        var children := ReadChildren(sysfs, parent);
        ReadStep(full, visited, graph, parent);
        FewerToVisit(full, sources, visited, parent);
        if children != [] {
          graph := graph[parent := children];
        }
        pending, visited := rest + children, visited + {parent};
      }
    }
    VisitedIsDownstream(full, sources, visited);
  }

  lemma DownstreamIsKnown(full: Graph, sources: set<Device>, x: Device)
    requires IsDownstream(full, sources, x)
    ensures x in sources + Targets(full)
  {
    var s :| s in sources && ReachesOrIs(full, s, x);
    if s != x {
      var w :| WalkAvoiding(full, {}, s, x, w);
      assert Step(full, w[|w| - 2], w[|w| - 1]);
    }
  }

  /** Inspecting the part that was read finds the same downstream devices as inspecting the whole graph. */
  lemma ReadingKeepsDescendants(full: Graph, read: Graph, sources: set<Device>, m: Device)
    requires IsRead(full, sources, read)
    ensures IsDownstream(read, sources, m) <==> IsDownstream(full, sources, m)
  {
    if IsDownstream(read, sources, m) {
      var s :| s in sources && ReachesOrIs(read, s, m);
      if s != m {
        ReadWalkIsWhole(full, read, sources, s, m);
      }
      assert ReachesOrIs(full, s, m);
    }
    if IsDownstream(full, sources, m) {
      var s :| s in sources && ReachesOrIs(full, s, m);
      if s != m {
        WholeWalkIsRead(full, read, sources, s, m);
      }
      assert ReachesOrIs(read, s, m);
    }
  }

  /** What `read_holder_graph` returns: the edges of everything downstream of the sources. */
  ghost predicate IsRead(full: Graph, sources: set<Device>, read: Graph) {
    forall x, y {:trigger Step(read, x, y)} {:trigger Step(full, x, y)} ::
      Step(read, x, y) <==> Step(full, x, y) && IsDownstream(full, sources, x)
  }

  lemma ReadWalkIsWhole(full: Graph, read: Graph, sources: set<Device>, s: Device, m: Device)
    requires IsRead(full, sources, read) && Reaches(read, s, m)
    ensures Reaches(full, s, m)
  {
    var w :| WalkAvoiding(read, {}, s, m, w);
    forall k {:trigger w[k]} | 0 < k < |w| ensures Step(full, w[k - 1], w[k]) {
      assert Step(read, w[k - 1], w[k]);
    }
    assert WalkAvoiding(full, {}, s, m, w);
  }

  lemma WholeWalkIsRead(full: Graph, read: Graph, sources: set<Device>, s: Device, m: Device)
    requires IsRead(full, sources, read) && s in sources && Reaches(full, s, m)
    ensures Reaches(read, s, m)
  {
    var w :| WalkAvoiding(full, {}, s, m, w);
    forall k {:trigger w[k]} | 0 < k < |w| ensures Step(read, w[k - 1], w[k]) {
      WalkIsDownstream(full, sources, w, k - 1);
    }
    assert WalkAvoiding(read, {}, s, m, w);
  }

  lemma {:induction false} WalkIsDownstream(full: Graph, sources: set<Device>, w: seq<Device>, k: nat)
    requires Walk(full, w) && k < |w| && w[0] in sources
    ensures IsDownstream(full, sources, w[k])
  {
    if k == 0 {
      assert ReachesOrIs(full, w[0], w[0]);
    } else {
      WalkIsDownstream(full, sources, w, k - 1);
      ChildrenAreDownstream(full, sources, w[k - 1]);
      assert Step(full, w[k - 1], w[k]);
    }
  }
}
