/** The image groups: clusters of close perceptual hashes, each measured from one canonical item. */
module DuplicateGroups {
  import opened Collections
  import opened Wrappers
  import opened TextOrder
  import opened DisjointSets
  import opened Clusters
  import opened ClusterDiameter
  import Hamming

  /** `_hex_hash` of a candidate's perceptual hash: absent, not hexadecimal, or a number. */
  datatype HashField = Missing | Malformed | Decoded(value: nat)

  datatype Candidate = Candidate(
    id: Id,
    mediaKind: string,
    hasPreview: bool,
    sizeBytes: Option<nat>,
    sourcePaths: seq<string>,
    perceptualHash: HashField)

  /** One group: its members in order, the item they are measured from, the distances, and the item reported. */
  datatype Group = Group(ids: seq<Id>, canonical: Id, distances: seq<nat>, reported: Id)

  // ----- The canonical item of a cluster -----

  function LeastPath(paths: seq<string>): (least: string)
    ensures if paths == [] then least == "" else least in paths
  {
    if paths == [] then ""
    else if |paths| == 1 then paths[0]
    else
      var rest := LeastPath(paths[1..]);
      if Less(rest, paths[0]) then rest else paths[0]
  }

  lemma {:induction false} LeastPathIsLeast(paths: seq<string>, p: string)
    requires p in paths
    ensures !Less(p, LeastPath(paths))
    decreases |paths|
  {
    if |paths| == 1 {
      LessIrreflexive(p);
    } else {
      var rest := LeastPath(paths[1..]);
      if p in paths[1..] {
        LeastPathIsLeast(paths[1..], p);
        if !Less(rest, paths[0]) && Less(p, paths[0]) {
          LessTotal(rest, p);
          LessTotal(paths[0], rest);
          if Less(rest, p) {
            LessTransitive(rest, p, paths[0]);
          }
        }
      } else {
        LessIrreflexive(p);
        if Less(rest, p) && Less(p, rest) {
          LessAsymmetric(rest, p);
        }
      }
    }
  }

  function Size(c: Candidate): nat {
    match c.sizeBytes
    case None => 0
    case Some(n) => n
  }

  /** The part of the sort keys that the two agree on: the larger, then the least path, then the least id. */
  predicate Outranks(a: Candidate, b: Candidate) {
    if Size(a) != Size(b) then Size(a) > Size(b)
    else if LeastPath(a.sourcePaths) != LeastPath(b.sourcePaths) then
      Less(LeastPath(a.sourcePaths), LeastPath(b.sourcePaths))
    else a.id < b.id
  }

  predicate HasPreview(c: Candidate) {
    c.hasPreview
  }

  /** `_preview_uri` of a member: its first path, if it has one. */
  predicate HasPath(c: Candidate) {
    c.sourcePaths != []
  }

  /** A sort key: what `leads` holds of comes first. */
  predicate Before(leads: Candidate -> bool, a: Candidate, b: Candidate) {
    if leads(a) != leads(b) then leads(a) else Outranks(a, b)
  }

  lemma OutranksTransitive(a: Candidate, b: Candidate, c: Candidate)
    requires Outranks(a, b) && Outranks(b, c)
    ensures Outranks(a, c)
  {
    var p, q, r := LeastPath(a.sourcePaths), LeastPath(b.sourcePaths), LeastPath(c.sourcePaths);
    if Less(p, q) && Less(q, r) {
      LessTransitive(p, q, r);
    }
    if Less(p, q) && Less(q, p) {
      LessAsymmetric(p, q);
    }
  }

  lemma OutranksTotal(a: Candidate, b: Candidate)
    requires a.id != b.id
    ensures Outranks(a, b) || Outranks(b, a)
  {
    LessTotal(LeastPath(a.sourcePaths), LeastPath(b.sourcePaths));
  }

  lemma OutranksAsymmetric(a: Candidate, b: Candidate)
    requires Outranks(a, b)
    ensures !Outranks(b, a)
  {
    var p, q := LeastPath(a.sourcePaths), LeastPath(b.sourcePaths);
    if Less(p, q) && Less(q, p) {
      LessAsymmetric(p, q);
    }
    LessIrreflexive(p);
  }

  lemma BeforeTransitive(leads: Candidate -> bool, a: Candidate, b: Candidate, c: Candidate)
    requires Before(leads, a, b) && Before(leads, b, c)
    ensures Before(leads, a, c)
  {
    if Outranks(a, b) && Outranks(b, c) {
      OutranksTransitive(a, b, c);
    }
  }

  lemma BeforeTotal(leads: Candidate -> bool, a: Candidate, b: Candidate)
    requires a.id != b.id
    ensures Before(leads, a, b) || Before(leads, b, a)
  {
    OutranksTotal(a, b);
  }

  ghost predicate Indexed(byId: map<Id, Candidate>, ids: seq<Id>) {
    forall x :: x in ids ==> x in byId && byId[x].id == x
  }

  /** The first of the cluster by a sort key. */
  function First(leads: Candidate -> bool, byId: map<Id, Candidate>, ids: seq<Id>): (c: Candidate)
    requires ids != [] && forall x :: x in ids ==> x in byId && byId[x].id == x
    ensures c.id in ids && byId[c.id] == c
  {
    if |ids| == 1 then byId[ids[0]]
    else
      var rest := First(leads, byId, ids[1..]);
      if Before(leads, rest, byId[ids[0]]) then rest else byId[ids[0]]
  }

  /** It comes before every other member. */
  lemma {:induction false} FirstIsFirst(leads: Candidate -> bool, byId: map<Id, Candidate>, ids: seq<Id>, x: Id)
    requires ids != [] && Indexed(byId, ids) && x in ids && x != First(leads, byId, ids).id
    ensures Before(leads, First(leads, byId, ids), byId[x])
    decreases |ids|
  {
    if |ids| > 1 {
      var rest := First(leads, byId, ids[1..]);
      var first := byId[ids[0]];
      if x in ids[1..] {
        if x != rest.id {
          FirstIsFirst(leads, byId, ids[1..], x);
        }
        if !Before(leads, rest, first) && x != first.id {
          if rest.id != first.id {
            BeforeTotal(leads, rest, first);
          }
          if x != rest.id && rest.id != first.id {
            BeforeTransitive(leads, first, rest, byId[x]);
          }
        }
      }
    }
  }

  /** `_canonical`: the first with previews in front; distances are measured from it. */
  function Canonical(byId: map<Id, Candidate>, ids: seq<Id>): (c: Candidate)
    requires ids != [] && forall x :: x in ids ==> x in byId && byId[x].id == x
    ensures c.id in ids && byId[c.id] == c
  {
    First(HasPreview, byId, ids)
  }

  lemma CanonicalIsFirst(byId: map<Id, Candidate>, ids: seq<Id>, x: Id)
    requires ids != [] && Indexed(byId, ids) && x in ids && x != Canonical(byId, ids).id
    ensures Before(HasPreview, Canonical(byId, ids), byId[x])
    ensures var c, other := Canonical(byId, ids), byId[x];
      && (c.hasPreview != other.hasPreview ==> c.hasPreview)
      && (c.hasPreview == other.hasPreview ==> ByMetadata(c, other))
  {
    FirstIsFirst(HasPreview, byId, ids, x);
  }

  /** The larger first, a missing size counting as 0; then the least path, no path counting as empty; then the id. */
  ghost predicate ByMetadata(a: Candidate, b: Candidate) {
    var m, n := if a.sizeBytes.Some? then a.sizeBytes.value else 0, if b.sizeBytes.Some? then b.sizeBytes.value else 0;
    m > n || (m == n && (Less(LeastPath(a.sourcePaths), LeastPath(b.sourcePaths))
      || (LeastPath(a.sourcePaths) == LeastPath(b.sourcePaths) && a.id < b.id)))
  }

  lemma ReportedIsFirst(byId: map<Id, Candidate>, ids: seq<Id>, x: Id)
    requires ids != [] && Indexed(byId, ids) && x in ids && x != Reported(byId, ids).id
    ensures var r, other := Reported(byId, ids), byId[x];
      && ((r.sourcePaths == []) != (other.sourcePaths == []) ==> r.sourcePaths != [])
      && ((r.sourcePaths == []) == (other.sourcePaths == []) ==> ByMetadata(r, other))
  {
    FirstIsFirst(HasPath, byId, ids, x);
  }

  /** `_canonical_member`: the first with paths in front; the group reports it as its canonical finding. */
  function Reported(byId: map<Id, Candidate>, ids: seq<Id>): (c: Candidate)
    requires ids != [] && forall x :: x in ids ==> x in byId && byId[x].id == x
    ensures c.id in ids && byId[c.id] == c
  {
    First(HasPath, byId, ids)
  }

  /** Members with a path make way for none without, and among its like nothing outranks the item. */
  ghost predicate PathsAgree(byId: map<Id, Candidate>, ids: seq<Id>, c: Candidate)
    requires Indexed(byId, ids)
  {
    forall x :: x in ids && x != c.id ==>
      if HasPath(byId[x]) == HasPath(c) then !Outranks(byId[x], c) else HasPath(c)
  }

  /**
   The reported item is the one that distances are measured from exactly when that item has a path or none has, and
   no member that is like it in that respect outranks it.
   */
  lemma ReportedIsCanonicalIff(byId: map<Id, Candidate>, ids: seq<Id>)
    requires ids != [] && Indexed(byId, ids)
    ensures Reported(byId, ids) == Canonical(byId, ids) <==> PathsAgree(byId, ids, Canonical(byId, ids))
  {
    var c, r := Canonical(byId, ids), Reported(byId, ids);
    if r == c {
      forall x | x in ids && x != c.id
        ensures if HasPath(byId[x]) == HasPath(c) then !Outranks(byId[x], c) else HasPath(c)
      {
        FirstIsFirst(HasPath, byId, ids, x);
        if Outranks(c, byId[x]) {
          OutranksAsymmetric(c, byId[x]);
        }
      }
    } else {
      FirstIsFirst(HasPath, byId, ids, c.id);
      assert Before(HasPath, r, c);
      assert r.id != c.id;
    }
  }

  /** Two photos of one scene: the one with a preview is measured from, the one with a path is reported. */
  lemma ReportedMayDiffer(byId: map<Id, Candidate>)
    requires byId == map[0 := Candidate(0, "photo", true, None, [], Decoded(0)),
                         1 := Candidate(1, "photo", false, None, ["a.jpg"], Decoded(1))]
    ensures Canonical(byId, [0, 1]).id == 0 && Reported(byId, [0, 1]).id == 1
    ensures Hamming.Distance(0, 1) == 1
  {
    assert [0, 1][1..] == [1];
    assert Hamming.Distance(0, 0) == 0;
  }

  // ----- The groups -----

  predicate IsImage(c: Candidate) {
    c.mediaKind in {"image", "photo"} && !c.perceptualHash.Missing?
  }

  /** The ids of the candidates whose hash takes part, in order. */
  function ImageIds(items: seq<Candidate>): seq<Id> {
    if items == [] then []
    else
      var last := items[|items| - 1];
      ImageIds(items[..|items| - 1]) + if IsImage(last) && last.perceptualHash.Decoded? then [last.id] else []
  }

  /** The ids warned about: images whose hash is not hexadecimal. */
  function MalformedIds(items: seq<Candidate>): seq<Id> {
    if items == [] then []
    else
      var last := items[|items| - 1];
      MalformedIds(items[..|items| - 1]) + if IsImage(last) && last.perceptualHash.Malformed? then [last.id] else []
  }

  ghost predicate SortedById(items: seq<Candidate>) {
    forall i, j :: 0 <= i < j < |items| ==> items[i].id < items[j].id
  }

  /** Exactly the images and photos with a decoded hash take part, and those with a malformed one are warned of. */
  lemma {:induction false} ImagesTakePart(items: seq<Candidate>, x: Id)
    ensures x in ImageIds(items) <==>
      exists i :: 0 <= i < |items| && items[i].id == x
        && (items[i].mediaKind == "image" || items[i].mediaKind == "photo") && items[i].perceptualHash.Decoded?
    ensures x in MalformedIds(items) <==>
      exists i :: 0 <= i < |items| && items[i].id == x
        && (items[i].mediaKind == "image" || items[i].mediaKind == "photo") && items[i].perceptualHash.Malformed?
  {
    if items != [] {
      var n := |items| - 1;
      ImagesTakePart(items[..n], x);
      assert items == items[..n] + [items[n]];
    }
  }

  lemma {:induction false} ImageIdsIncrease(items: seq<Candidate>)
    requires SortedById(items)
    ensures Ascending(ImageIds(items))
    ensures forall x :: x in ImageIds(items) ==> exists i :: 0 <= i < |items| && items[i].id == x
  {
    if items != [] {
      var n := |items| - 1;
      ImageIdsIncrease(items[..n]);
      var before := ImageIds(items[..n]);
      forall k | 0 <= k < |before| ensures before[k] < items[n].id {
        assert before[k] in before;
        var i :| 0 <= i < n && items[..n][i].id == before[k];
      }
      forall x | x in ImageIds(items) ensures exists i :: 0 <= i < |items| && items[i].id == x {
        if x in ImageIds(items[..n]) {
          var i :| 0 <= i < n && items[..n][i].id == x;
          assert items[i].id == x;
        } else {
          assert items[n].id == x;
        }
      }
    }
  }

  /** `_lookup`; only ever asked about ids that have a hash. */
  function HashOf(values: map<Id, nat>, x: Id): nat {
    if x in values then values[x] else 0
  }

  function Gap(values: map<Id, nat>): (Id, Id) -> nat {
    (x: Id, y: Id) => Hamming.Distance(HashOf(values, x), HashOf(values, y))
  }

  function Near(values: map<Id, nat>, threshold: int): (Id, Id) -> bool {
    (x: Id, y: Id) => Gap(values)(x, y) <= threshold
  }

  /** Near means at most so many differing bits. */
  lemma NearMeans(values: map<Id, nat>, threshold: int, x: Id, y: Id)
    requires x in values && y in values
    ensures Near(values, threshold)(x, y) <==> Hamming.Distance(values[x], values[y]) <= threshold
  {
    assert Gap(values)(x, y) == Hamming.Distance(values[x], values[y]);
  }

  lemma GapIsMetric(values: map<Id, nat>, threshold: int)
    ensures IsMetric(Gap(values)) && Bounds(Near(values, threshold), Gap(values), threshold)
  {
    var gap := Gap(values);
    forall x: Id ensures gap(x, x) == 0 {
      Hamming.DistanceIsZeroIffEqual(HashOf(values, x), HashOf(values, x));
    }
    forall x: Id, y: Id ensures gap(x, y) == gap(y, x) {
      Hamming.DistanceIsSymmetric(HashOf(values, x), HashOf(values, y));
    }
    forall x: Id, y: Id, z: Id {:trigger gap(x, y), gap(y, z)} ensures gap(x, z) <= gap(x, y) + gap(y, z) {
      Hamming.DistanceTriangle(HashOf(values, x), HashOf(values, y), HashOf(values, z));
    }
  }

  /** The recorded distances of a cluster, each measured to the canonical item. */
  ghost predicate Measures(group: Group, byId: map<Id, Candidate>, gap: (Id, Id) -> nat)
  {
    && group.ids != [] && (forall x :: x in group.ids ==> x in byId && byId[x].id == x)
    && group.canonical == Canonical(byId, group.ids).id && group.reported == Reported(byId, group.ids).id
    && |group.distances| == |group.ids|
    && (forall k {:trigger group.distances[k]} :: 0 <= k < |group.ids| ==>
          group.distances[k] == gap(group.ids[k], group.canonical))
  }

  /** The reported item has distance 0 on record exactly if its hash is that of the item measured from. */
  lemma ReportedDistanceIsZeroIff(group: Group, byId: map<Id, Candidate>, values: map<Id, nat>, k: nat)
    requires Measures(group, byId, Gap(values)) && k < |group.ids| && group.ids[k] == group.reported
    ensures group.distances[k] == 0 <==> HashOf(values, group.reported) == HashOf(values, group.canonical)
  {
    assert group.distances[k] == Gap(values)(group.ids[k], group.canonical);
    Hamming.DistanceIsZeroIffEqual(HashOf(values, group.reported), HashOf(values, group.canonical));
  }

  function IdsOf(groups: seq<Group>): seq<seq<Id>> {
    seq(|groups|, k requires 0 <= k < |groups| => groups[k].ids)
  }

  /** The dictionaries that `_lookup` stands for: the candidates by id, and their hashes. */
  ghost predicate Indexes(items: seq<Candidate>, byId: map<Id, Candidate>, values: map<Id, nat>) {
    && (forall x {:trigger x in byId} :: x in byId <==> x in ImageIds(items))
    && byId.Keys == values.Keys
    && (forall x {:trigger byId[x]} :: x in byId ==>
          byId[x] in items && byId[x].id == x && byId[x].perceptualHash == Decoded(values[x]))
  }

  /** The first loop of `_image_groups`. */
  method CollectImages(items: seq<Candidate>)
    returns (ids: seq<Id>, byId: map<Id, Candidate>, values: map<Id, nat>, warnings: seq<Id>)
    ensures ids == ImageIds(items) && warnings == MalformedIds(items) && Indexes(items, byId, values)
  {
    ids, byId, values, warnings := [], map[], map[], [];
    for n := 0 to |items|
      invariant ids == ImageIds(items[..n]) && warnings == MalformedIds(items[..n])
      invariant Indexes(items[..n], byId, values)
    {
      var item := items[n];
      assert items[..n + 1] == items[..n] + [item] && items[..n + 1][..n] == items[..n];
      if IsImage(item) {
        match item.perceptualHash {
          case Decoded(value) =>
            ids, byId, values := ids + [item.id], byId[item.id := item], values[item.id := value];
          case Malformed =>
            warnings := warnings + [item.id];
        }
      }
    }
    assert items[..|items|] == items;
  }

  /** Measures one cluster. */
  method MeasureGroup(ids: seq<Id>, byId: map<Id, Candidate>, gap: (Id, Id) -> nat) returns (group: Group)
    requires ids != [] && forall x :: x in ids ==> x in byId && byId[x].id == x
    ensures group.ids == ids && Measures(group, byId, gap)
  {
    var canonical := Canonical(byId, ids).id;
    var distances := [];
    for k := 0 to |ids|
      invariant |distances| == k
      invariant forall j {:trigger distances[j]} :: 0 <= j < k ==> distances[j] == gap(ids[j], canonical)
    {
      distances := distances + [gap(ids[k], canonical)];
    }
    group := Group(ids, canonical, distances, Reported(byId, ids).id);
  }

  /** Every recorded distance stays within the threshold times one less than the size of the group. */
  ghost predicate DistancesBounded(group: Group, threshold: int) {
    forall k {:trigger group.distances[k]} :: 0 <= k < |group.distances| ==>
      group.distances[k] <= threshold * (|group.ids| - 1)
  }

  lemma GroupIsBounded(
    ids: seq<Id>, byId: map<Id, Candidate>, near: (Id, Id) -> bool, gap: (Id, Id) -> nat, threshold: int,
    clusters: seq<seq<Id>>, group: Group)
    requires Ascending(ids) && AreClasses(ids, Relation(ids, near), clusters)
    requires IsMetric(gap) && Bounds(near, gap, threshold)
    requires group.ids in clusters && Measures(group, byId, gap)
    ensures DistancesBounded(group, threshold)
  {
    forall k {:trigger group.distances[k]} | 0 <= k < |group.distances|
      ensures group.distances[k] <= threshold * (|group.ids| - 1)
    {
      DiameterBound(ids, near, gap, threshold, clusters, group.ids, group.ids[k], group.canonical);
    }
  }

  lemma ClustersAreIndexed(
    items: seq<Candidate>, byId: map<Id, Candidate>, values: map<Id, nat>, same: (Id, Id) -> bool,
    clusters: seq<seq<Id>>)
    requires Indexes(items, byId, values) && AreClasses(ImageIds(items), same, clusters)
    ensures forall c :: c in clusters ==> c != [] && forall x :: x in c ==> x in byId && byId[x].id == x
  {
    var ids := ImageIds(items);
    forall c, x | c in clusters && x in c ensures x in byId && byId[x].id == x {
      MembersAre(ids, same, |ids|, c[0], x);
      assert ids[..|ids|] == ids;
    }
  }

  /** The groups made of the clusters, each measured from its canonical item. */
  method MeasureGroups(clusters: seq<seq<Id>>, byId: map<Id, Candidate>, gap: (Id, Id) -> nat)
    returns (groups: seq<Group>)
    requires forall c :: c in clusters ==> c != [] && forall x :: x in c ==> x in byId && byId[x].id == x
    ensures IdsOf(groups) == clusters
    ensures forall g :: g in groups ==> g.ids in clusters && Measures(g, byId, gap)
  {
    groups := [];
    for n := 0 to |clusters|
      invariant |groups| == n && forall k {:trigger groups[k]} :: 0 <= k < n ==> groups[k].ids == clusters[k]
      invariant forall g :: g in groups ==> g.ids in clusters && Measures(g, byId, gap)
    {
      assert clusters[n] in clusters;
      var group := MeasureGroup(clusters[n], byId, gap);
      groups := groups + [group];
    }
    assert IdsOf(groups) == clusters;
  }

  /** The image groups are the components of the near pairs, measured from their canonical items. */
  method ImageGroups(items: seq<Candidate>, threshold: int)
    returns (groups: seq<Group>, warnings: seq<Id>, byId: map<Id, Candidate>, values: map<Id, nat>)
    requires SortedById(items)
    ensures warnings == MalformedIds(items) && Indexes(items, byId, values)
    ensures AreClasses(ImageIds(items), Relation(ImageIds(items), Near(values, threshold)), IdsOf(groups))
    ensures forall g :: g in groups ==> Measures(g, byId, Gap(values)) && DistancesBounded(g, threshold)
  {
    var ids;
    ids, byId, values, warnings := CollectImages(items);
    ImageIdsIncrease(items);
    var near, gap := Near(values, threshold), Gap(values);
    var clusters := FindClusters(ids, near);
    ClustersAreIndexed(items, byId, values, Relation(ids, near), clusters);
    groups := MeasureGroups(clusters, byId, gap);
    GapIsMetric(values, threshold);
    forall g | g in groups ensures DistancesBounded(g, threshold) {
      GroupIsBounded(ids, byId, near, gap, threshold, clusters, g);
    }
  }
}
