/** Where clusters lie on disk, what deleted entries may claim, and the ranges that are left to carve. */
module Fat12Space {
  import opened Arithmetic
  import opened Collections
  import opened Fat12Chains

  // ----- Clusters as runs of sectors -----

  function FirstSector(g: Geometry, cluster: nat): nat
    requires g.Valid() && cluster >= 2
  {
    g.FirstDataSector() + (cluster - 2) * g.sectorsPerCluster
  }

  ghost predicate InCluster(g: Geometry, cluster: nat, sector: nat)
    requires g.Valid() && cluster >= 2
  {
    FirstSector(g, cluster) <= sector < FirstSector(g, cluster) + g.sectorsPerCluster
  }

  /** Clusters follow one another without overlap. */
  lemma ClustersAreOrdered(g: Geometry, a: nat, b: nat)
    requires g.Valid() && 2 <= a < b
    ensures FirstSector(g, a) + g.sectorsPerCluster <= FirstSector(g, b)
  {
    MulMonotone(a - 2 + 1, b - 2, g.sectorsPerCluster);
    assert (a - 2 + 1) * g.sectorsPerCluster == (a - 2) * g.sectorsPerCluster + g.sectorsPerCluster;
  }

  /** The first cluster begins the data region, and each further one follows the one before. */
  lemma ClustersTile(g: Geometry, cluster: nat)
    requires g.Valid() && cluster >= 2
    ensures FirstSector(g, 2) == g.FirstDataSector()
    ensures FirstSector(g, cluster + 1) == FirstSector(g, cluster) + g.sectorsPerCluster
  {
    assert (cluster - 2 + 1) * g.sectorsPerCluster == (cluster - 2) * g.sectorsPerCluster + g.sectorsPerCluster;
  }

  lemma SectorHasOneCluster(g: Geometry, a: nat, b: nat, sector: nat)
    requires g.Valid() && a >= 2 && b >= 2 && InCluster(g, a, sector) && InCluster(g, b, sector)
    ensures a == b
  {
    if a < b {
      ClustersAreOrdered(g, a, b);
    } else if b < a {
      ClustersAreOrdered(g, b, a);
    }
  }

  /** Every cluster that the table names ends inside the medium. */
  lemma ClusterIsOnMedium(g: Geometry, cluster: nat)
    requires g.Valid() && 2 <= cluster < g.ClusterCount() + 2
    ensures g.FirstDataSector() <= FirstSector(g, cluster)
    ensures FirstSector(g, cluster) + g.sectorsPerCluster <= g.totalSectors
  {
    ClustersFit(g.totalSectors - g.FirstDataSector(), g.sectorsPerCluster, cluster - 2);
  }

  lemma ClustersFit(room: nat, size: nat, k: nat)
    requires size > 0 && k < room / size
    ensures k * size + size <= room
  {
    MulMonotone(k + 1, room / size, size);
    assert (k + 1) * size == k * size + size;
    assert room == room / size * size + room % size;
  }

  // ----- _cluster_extents -----

  datatype Extent = Extent(offset: nat, length: nat)

  ghost predicate Covers(e: Extent, byte: nat) {
    e.offset <= byte < e.offset + e.length
  }

  function ClusterExtent(g: Geometry, cluster: nat): Extent
    requires g.Valid() && cluster >= 2
  {
    Extent(FirstSector(g, cluster) * g.bytesPerSector, g.ClusterSize())
  }

  function ClusterExtents(g: Geometry, chain: seq<nat>): (extents: seq<Extent>)
    requires g.Valid() && forall k :: 0 <= k < |chain| ==> chain[k] >= 2
    ensures |extents| == |chain| && forall k :: 0 <= k < |chain| ==> extents[k] == ClusterExtent(g, chain[k])
  {
    seq(|chain|, k requires 0 <= k < |chain| => ClusterExtent(g, chain[k]))
  }

  /** A byte is in a cluster's extent exactly when its sector is in the cluster. */
  lemma ExtentCoversSectors(g: Geometry, cluster: nat, byte: nat)
    requires g.Valid() && cluster >= 2
    ensures Covers(ClusterExtent(g, cluster), byte) <==> InCluster(g, cluster, byte / g.bytesPerSector)
  {
    SectorOfByte(g.bytesPerSector, FirstSector(g, cluster), g.sectorsPerCluster, byte);
  }

  lemma SectorOfByte(size: nat, first: nat, count: nat, byte: nat)
    requires size > 0
    ensures first * size <= byte < first * size + count * size <==> first <= byte / size < first + count
  {
    var q := byte / size;
    assert byte == q * size + byte % size;
    if first <= q < first + count {
      MulMonotone(first, q, size);
      MulMonotone(q + 1, first + count, size);
      assert (q + 1) * size == q * size + size && (first + count) * size == first * size + count * size;
    } else if q < first {
      MulMonotone(q + 1, first, size);
      assert (q + 1) * size == q * size + size;
    } else {
      MulMonotone(first + count, q, size);
      assert (first + count) * size == first * size + count * size;
    }
  }

  /** The extents of two clusters share no byte. */
  lemma ExtentsAreDisjoint(g: Geometry, a: nat, b: nat, byte: nat)
    requires g.Valid() && a >= 2 && b >= 2 && a != b && Covers(ClusterExtent(g, a), byte)
    ensures !Covers(ClusterExtent(g, b), byte)
  {
    ExtentCoversSectors(g, a, byte);
    ExtentCoversSectors(g, b, byte);
    if InCluster(g, b, byte / g.bytesPerSector) {
      SectorHasOneCluster(g, a, b, byte / g.bytesPerSector);
    }
  }

  /** An extent lies inside the data region of the medium. */
  lemma ExtentIsInDataRegion(g: Geometry, cluster: nat)
    requires g.Valid() && 2 <= cluster < g.ClusterCount() + 2
    ensures g.FirstDataSector() * g.bytesPerSector <= ClusterExtent(g, cluster).offset
    ensures ClusterExtent(g, cluster).offset + ClusterExtent(g, cluster).length <= g.totalSectors * g.bytesPerSector
  {
    ClusterIsOnMedium(g, cluster);
    var first, size := FirstSector(g, cluster), g.bytesPerSector;
    MulMonotone(g.FirstDataSector(), first, size);
    MulMonotone(first + g.sectorsPerCluster, g.totalSectors, size);
    assert (first + g.sectorsPerCluster) * size == first * size + g.ClusterSize();
  }

  // ----- _free_cluster_ranges -----

  /** A readable sector of a free cluster. */
  ghost predicate Carvable(fat: Fat, g: Geometry, unreadable: set<nat>, sector: nat)
    requires g.Valid()
  {
    sector !in unreadable
    && exists c: nat :: 2 <= c < |fat| && c < g.ClusterCount() + 2 && fat[c] == 0 && InCluster(g, c, sector)
  }

  /** The readable sectors of the free clusters, in order. */
  method ReadableFreeSectors(fat: Fat, g: Geometry, unreadable: set<nat>) returns (sectors: seq<nat>)
    requires g.Valid()
    ensures Ascending(sectors) && forall s :: s in sectors <==> Carvable(fat, g, unreadable, s)
  {
    sectors := [];
    var limit := if |fat| < g.ClusterCount() + 2 then |fat| else g.ClusterCount() + 2;
    var cluster := 2;
    while cluster < limit
      invariant 2 <= cluster <= limit || (cluster == 2 && limit < 2)
      invariant Ascending(sectors)
      invariant forall s :: s in sectors ==> s < FirstSector(g, cluster)
      invariant forall s :: s in sectors <==>
        s !in unreadable && exists c: nat :: 2 <= c < cluster && c < |fat| && fat[c] == 0 && InCluster(g, c, s)
    {
      ghost var before := sectors;
      ClustersAreOrdered(g, cluster, cluster + 1);
      if fat[cluster] == 0 {
        var first := FirstSector(g, cluster);
        for sector := first to first + g.sectorsPerCluster
          invariant Ascending(sectors) && forall s :: s in sectors ==> s < sector
          invariant forall s :: s in sectors <==> s in before || (first <= s < sector && s !in unreadable)
        {
          if sector !in unreadable {
            assert forall i :: 0 <= i < |sectors| ==> sectors[i] in sectors;
            sectors := sectors + [sector];
          }
        }
      }
      cluster := cluster + 1;
    }
  }

  /** A run of consecutive sectors, both ends included. */
  datatype Run = Run(first: nat, last: nat)

  ghost predicate InRun(r: Run, s: nat) {
    r.first <= s <= r.last
  }

  /** Sorted runs, each non-empty, with a gap between any two. */
  ghost predicate Separated(runs: seq<Run>) {
    && (forall i {:trigger runs[i]} :: 0 <= i < |runs| ==> runs[i].first <= runs[i].last)
    && (forall i, j :: 0 <= i < j < |runs| ==> runs[i].last + 1 < runs[j].first)
  }

  ghost predicate RunsCover(runs: seq<Run>, s: nat) {
    exists i :: 0 <= i < |runs| && InRun(runs[i], s)
  }

  function RangeOf(g: Geometry, r: Run): Extent
  {
    Extent(r.first * g.bytesPerSector, (if r.first <= r.last then r.last - r.first + 1 else 0) * g.bytesPerSector)
  }

  function RangesOf(g: Geometry, runs: seq<Run>): (ranges: seq<Extent>)
    ensures |ranges| == |runs|
    ensures forall i :: 0 <= i < |runs| ==> ranges[i] == RangeOf(g, runs[i])
  {
    seq(|runs|, i requires 0 <= i < |runs| => RangeOf(g, runs[i]))
  }

  /** Sorted runs with gaps between them that cover exactly the sectors that may be carved. */
  ghost predicate AreRuns(fat: Fat, g: Geometry, unreadable: set<nat>, runs: seq<Run>)
    requires g.Valid()
  {
    Separated(runs) && forall s: nat :: RunsCover(runs, s) <==> Carvable(fat, g, unreadable, s)
  }

  /** Byte ranges made of such runs, one for each. */
  ghost predicate AreCarveRanges(fat: Fat, g: Geometry, unreadable: set<nat>, ranges: seq<Extent>)
    requires g.Valid()
  {
    exists runs :: AreRuns(fat, g, unreadable, runs) && ranges == RangesOf(g, runs)
  }

  lemma {:induction false} SameCoverSameRuns(a: seq<Run>, b: seq<Run>)
    requires Separated(a) && Separated(b) && forall s: nat :: RunsCover(a, s) <==> RunsCover(b, s)
    ensures a == b
    decreases |a|
  {
    FirstIsLeastCovered(a);
    FirstIsLeastCovered(b);
    if a != [] {
      assert RunsCover(a, a[0].first) && RunsCover(b, b[0].first);
      assert a[0].first == b[0].first;
      FirstRunEnds(a);
      FirstRunEnds(b);
      assert a[0].last == b[0].last;
      forall s: nat ensures RunsCover(a[1..], s) <==> RunsCover(b[1..], s) {
        RestCovers(a, s);
        RestCovers(b, s);
      }
      SameCoverSameRuns(a[1..], b[1..]);
      assert a == [a[0]] + a[1..] && b == [b[0]] + b[1..];
    }
  }

  lemma FirstIsLeastCovered(runs: seq<Run>)
    requires Separated(runs)
    ensures runs == [] ==> forall s: nat :: !RunsCover(runs, s)
    ensures runs != [] ==> RunsCover(runs, runs[0].first) && forall s: nat :: RunsCover(runs, s) ==> runs[0].first <= s
  {
    if runs != [] {
      assert InRun(runs[0], runs[0].first);
      forall s: nat | RunsCover(runs, s) ensures runs[0].first <= s {
        var i :| 0 <= i < |runs| && InRun(runs[i], s);
        assert i > 0 ==> runs[0].last + 1 < runs[i].first;
      }
    }
  }

  lemma FirstRunEnds(runs: seq<Run>)
    requires Separated(runs) && runs != []
    ensures forall s: nat :: runs[0].first <= s <= runs[0].last ==> RunsCover(runs, s)
    ensures !RunsCover(runs, runs[0].last + 1)
  {
    forall s: nat | runs[0].first <= s <= runs[0].last ensures RunsCover(runs, s) {
      assert InRun(runs[0], s);
    }
  }

  lemma RestCovers(runs: seq<Run>, s: nat)
    requires Separated(runs) && runs != []
    ensures RunsCover(runs[1..], s) <==> RunsCover(runs, s) && s > runs[0].last
  {
    if RunsCover(runs, s) && s > runs[0].last {
      var i :| 0 <= i < |runs| && InRun(runs[i], s);
      assert runs[1..][i - 1] == runs[i];
    }
    if RunsCover(runs[1..], s) {
      var i :| 0 <= i < |runs[1..]| && InRun(runs[1..][i], s);
      assert runs[i + 1] == runs[1..][i];
    }
  }

  /** What may be carved determines the ranges. */
  lemma RangesAreUnique(fat: Fat, g: Geometry, unreadable: set<nat>, a: seq<Extent>, b: seq<Extent>)
    requires g.Valid() && AreCarveRanges(fat, g, unreadable, a) && AreCarveRanges(fat, g, unreadable, b)
    ensures a == b
  {
    var p: seq<Run> :| AreRuns(fat, g, unreadable, p) && a == RangesOf(g, p);
    var q: seq<Run> :| AreRuns(fat, g, unreadable, q) && b == RangesOf(g, q);
    forall s: nat ensures RunsCover(p, s) <==> RunsCover(q, s) {
      assert RunsCover(p, s) <==> Carvable(fat, g, unreadable, s);
    }
    SameCoverSameRuns(p, q);
  }

  /** Joins consecutive sectors into runs, and turns each run into a byte range. */
  method FreeClusterRanges(fat: Fat, g: Geometry, unreadable: set<nat>) returns (ranges: seq<Extent>)
    requires g.Valid()
    ensures AreCarveRanges(fat, g, unreadable, ranges)
  {
    var sectors := ReadableFreeSectors(fat, g, unreadable);
    ranges := [];
    ghost var runs: seq<Run> := [];
    if sectors == [] {
      assert AreRuns(fat, g, unreadable, runs) && ranges == RangesOf(g, runs);
      return;
    }
    ghost var done := sectors[..1];
    var current := Run(sectors[0], sectors[0]);
    FirstRun(current, done);
    var n := 1;
    while n < |sectors|
      invariant 1 <= n <= |sectors| && done == sectors[..n] && current.last == sectors[n - 1]
      invariant RunsAre(runs, current, done)
      invariant ranges == RangesOf(g, runs)
    {
      var sector := sectors[n];
      if sector != current.last + 1 {
        StartRun(runs, current, sector, done);
        ranges := ranges + [RangeOf(g, current)];
        runs := runs + [current];
        current := Run(sector, sector);
      } else {
        GrowRun(runs, current, done);
        current := Run(current.first, sector);
      }
      n := n + 1;
      done := done + [sector];
    }
    assert done == sectors;
    ranges := ranges + [RangeOf(g, current)];
    runs := runs + [current];
    assert AreRuns(fat, g, unreadable, runs) && ranges == RangesOf(g, runs);
  }

  /** The finished runs and the current one cover exactly the sectors seen so far. */
  ghost predicate RunsAre(runs: seq<Run>, current: Run, done: seq<nat>) {
    Separated(runs + [current]) && forall s: nat {:trigger s in done} :: RunsCover(runs + [current], s) <==> s in done
  }

  lemma FirstRun(current: Run, done: seq<nat>)
    requires current.first == current.last && done == [current.first]
    ensures RunsAre([], current, done)
  {
    var runs := [] + [current];
    assert runs[0] == current;
  }

  lemma CoverSplits(runs: seq<Run>, r: Run, s: nat)
    ensures RunsCover(runs + [r], s) <==> RunsCover(runs, s) || InRun(r, s)
  {
    var all := runs + [r];
    if RunsCover(runs, s) {
      var i :| 0 <= i < |runs| && InRun(runs[i], s);
      assert InRun(all[i], s);
    }
    if InRun(r, s) {
      assert InRun(all[|runs|], s);
    }
  }

  lemma StartRun(runs: seq<Run>, current: Run, sector: nat, done: seq<nat>)
    requires RunsAre(runs, current, done) && current.last + 1 < sector
    ensures RunsAre(runs + [current], Run(sector, sector), done + [sector])
  {
    var was, next := runs + [current], Run(sector, sector);
    forall i, j | 0 <= i < j < |was + [next]| ensures (was + [next])[i].last + 1 < (was + [next])[j].first {
      if j == |was| && i < |runs| {
        assert was[i].last + 1 < was[|runs|].first && was[|runs|].first <= was[|runs|].last;
      }
    }
    forall s: nat ensures RunsCover(was + [next], s) <==> s in done + [sector] {
      CoverSplits(was, next, s);
      assert s in done <==> RunsCover(was, s);
    }
  }

  lemma GrowRun(runs: seq<Run>, current: Run, done: seq<nat>)
    requires RunsAre(runs, current, done)
    ensures RunsAre(runs, Run(current.first, current.last + 1), done + [current.last + 1])
  {
    var longer := Run(current.first, current.last + 1);
    var was, next := runs + [current], runs + [longer];
    assert was[|runs|].first <= was[|runs|].last;
    forall i {:trigger next[i]} | 0 <= i < |next| ensures next[i].first <= next[i].last {
      assert was[i].first <= was[i].last;
    }
    forall i, j | 0 <= i < j < |next| ensures next[i].last + 1 < next[j].first {
      assert was[i].last + 1 < was[j].first;
    }
    forall s: nat ensures RunsCover(next, s) <==> s in done + [longer.last] {
      CoverSplits(runs, current, s);
      CoverSplits(runs, longer, s);
      assert s in done <==> RunsCover(was, s);
    }
  }

  // ----- Deleted entries and allocated files against the ranges -----

  datatype DeletedState = MetadataOnly | OutOfRange | Reused | ContiguousCandidate

  /** `_deleted_chain`: the contiguous clusters that a deleted entry may still hold. */
  function DeletedChain(first: nat, size: nat, fat: Fat, g: Geometry): (r: (seq<nat>, DeletedState))
    requires g.Valid()
    ensures r.1 != ContiguousCandidate ==> r.0 == []
    ensures r.1 == ContiguousCandidate <==>
      (first >= 2 && size > 0 && first + ClustersForSize(size, g) <= |fat|
       && forall c: nat :: first <= c < first + ClustersForSize(size, g) ==> fat[c] == 0)
    ensures r.1 == ContiguousCandidate ==> |r.0| == ClustersForSize(size, g) && Contiguous(r.0) && r.0[0] == first
    ensures r.1 == MetadataOnly <==> first < 2 || size == 0
    ensures r.1 == DeletedState.OutOfRange <==>
      first >= 2 && size > 0 && first + ClustersForSize(size, g) > |fat|
  {
    ExpectedIsPositiveIff(size, g);
    var count := ClustersForSize(size, g);
    var candidate: seq<nat> := seq(count, i requires 0 <= i => first + i);
    if first < 2 || count == 0 then ([], MetadataOnly)
    else if first + count > |fat| then ([], DeletedState.OutOfRange)
    else if exists c :: first <= c < first + count && fat[c] != 0 then ([], Reused)
    else (candidate, ContiguousCandidate)
  }

  /** A byte lies in a carve range exactly when its sector may be carved. */
  lemma RangesCoverCarvableBytes(
    fat: Fat, g: Geometry, unreadable: set<nat>, ranges: seq<Extent>, byte: nat)
    requires g.Valid() && AreCarveRanges(fat, g, unreadable, ranges)
    ensures (exists i :: 0 <= i < |ranges| && Covers(ranges[i], byte)) <==>
      Carvable(fat, g, unreadable, byte / g.bytesPerSector)
  {
    var runs: seq<Run> :| AreRuns(fat, g, unreadable, runs) && ranges == RangesOf(g, runs);
    var sector := byte / g.bytesPerSector;
    assert RunsCover(runs, sector) <==> Carvable(fat, g, unreadable, sector);
    forall i | 0 <= i < |ranges| ensures Covers(ranges[i], byte) <==> InRun(runs[i], sector) {
      SectorOfByte(g.bytesPerSector, runs[i].first, runs[i].last - runs[i].first + 1, byte);
    }
    if RunsCover(runs, sector) {
      var i :| 0 <= i < |runs| && InRun(runs[i], sector);
      assert Covers(ranges[i], byte);
    }
  }

  /** A sector is in at most one run. */
  lemma RunsAreDisjoint(runs: seq<Run>, i: nat, j: nat, s: nat)
    requires Separated(runs) && i < |runs| && j < |runs| && InRun(runs[i], s) && InRun(runs[j], s)
    ensures i == j
  {
  }

  /** Runs are as long as they can be: what borders a run may not be carved. */
  lemma RunsAreMaximal(fat: Fat, g: Geometry, unreadable: set<nat>, runs: seq<Run>, i: nat)
    requires g.Valid() && AreRuns(fat, g, unreadable, runs)
    requires i < |runs|
    ensures !Carvable(fat, g, unreadable, runs[i].last + 1)
    ensures runs[i].first > 0 ==> !Carvable(fat, g, unreadable, runs[i].first - 1)
  {
    forall j | 0 <= j < |runs| ensures !InRun(runs[j], runs[i].last + 1) {
      assert runs[j].first <= runs[j].last && (i < j || j <= i);
    }
    forall j | 0 <= j < |runs| && runs[i].first > 0 ensures !InRun(runs[j], runs[i].first - 1) {
      assert runs[j].first <= runs[j].last && (i < j || j <= i);
    }
    assert !RunsCover(runs, runs[i].last + 1);
    assert runs[i].first > 0 ==> !RunsCover(runs, runs[i].first - 1);
  }

  /** A file's clusters that are not free share no sector with anything that is carved. */
  lemma UsedClustersAreNotCarved(fat: Fat, g: Geometry, unreadable: set<nat>, cluster: nat, byte: nat)
    requires g.Valid() && 2 <= cluster < |fat| && fat[cluster] != 0
    requires Covers(ClusterExtent(g, cluster), byte)
    ensures !Carvable(fat, g, unreadable, byte / g.bytesPerSector)
  {
    ExtentCoversSectors(g, cluster, byte);
    var sector := byte / g.bytesPerSector;
    if Carvable(fat, g, unreadable, sector) {
      var c: nat :| 2 <= c < |fat| && c < g.ClusterCount() + 2 && fat[c] == 0 && InCluster(g, c, sector);
      SectorHasOneCluster(g, c, cluster, sector);
    }
  }

  /** Every readable sector of a deleted candidate lies in exactly one run, so nothing of it is lost to carving. */
  lemma DeletedCandidateIsCarved(
    fat: Fat, g: Geometry, unreadable: set<nat>, runs: seq<Run>, first: nat, size: nat, k: nat, sector: nat)
    requires g.Valid() && |fat| == g.ClusterCount() + 2
    requires AreRuns(fat, g, unreadable, runs)
    requires DeletedChain(first, size, fat, g).1 == ContiguousCandidate && k < ClustersForSize(size, g)
    requires InCluster(g, first + k, sector) && sector !in unreadable
    ensures exists i ::
      0 <= i < |runs| && InRun(runs[i], sector) && forall j :: 0 <= j < |runs| && InRun(runs[j], sector) ==> j == i
  {
    assert fat[first + k] == 0;
    assert Carvable(fat, g, unreadable, sector);
    var i :| 0 <= i < |runs| && InRun(runs[i], sector);
    forall j | 0 <= j < |runs| && InRun(runs[j], sector) ensures j == i {
      RunsAreDisjoint(runs, i, j, sector);
    }
  }

  /** The bytes of two extents do not meet. */
  ghost predicate Apart(e: Extent, f: Extent) {
    forall byte :: Covers(e, byte) ==> !Covers(f, byte)
  }

  /**
   A file recorded as intact or fragmented: the clusters its size needs, each once and none free, whose extents
   lie in the data region, apart from one another and from everything that is carved.
   */
  lemma IntactFileIsWhole(
    first: nat, size: nat, fat: Fat, g: Geometry, r: ChainResult, unreadable: set<nat>, ranges: seq<Extent>)
    requires g.Valid() && |fat| == g.ClusterCount() + 2 && size > 0
    requires IsRecorded(first, size, fat, g, r) && r.status in {Intact, Fragmented}
    requires AreCarveRanges(fat, g, unreadable, ranges)
    ensures |r.chain| == ClustersForSize(size, g) && Distinct(r.chain)
    ensures forall k :: 0 <= k < |r.chain| ==> 2 <= r.chain[k] < |fat| && fat[r.chain[k]] != 0
    ensures var extents := ClusterExtents(g, r.chain);
      && (forall j, k :: 0 <= j < k < |extents| ==> Apart(extents[j], extents[k]))
      && (forall k, i :: 0 <= k < |extents| && 0 <= i < |ranges| ==> Apart(extents[k], ranges[i]))
      && (forall k :: 0 <= k < |extents| ==>
            && g.FirstDataSector() * g.bytesPerSector <= extents[k].offset
            && extents[k].offset + extents[k].length <= g.totalSectors * g.bytesPerSector)
  {
    WholeChainHasItsSize(first, size, fat, g, r);
    var extents := ClusterExtents(g, r.chain);
    forall j, k | 0 <= j < k < |extents| ensures Apart(extents[j], extents[k]) {
      DistinctExtentsAreApart(g, r.chain[j], r.chain[k]);
    }
    forall k, i | 0 <= k < |extents| && 0 <= i < |ranges| ensures Apart(extents[k], ranges[i]) {
      UsedExtentIsApart(fat, g, unreadable, ranges, r.chain[k], i);
    }
    forall k | 0 <= k < |extents|
      ensures g.FirstDataSector() * g.bytesPerSector <= extents[k].offset
      ensures extents[k].offset + extents[k].length <= g.totalSectors * g.bytesPerSector
    {
      ExtentIsInDataRegion(g, r.chain[k]);
    }
  }

  lemma DistinctExtentsAreApart(g: Geometry, a: nat, b: nat)
    requires g.Valid() && a >= 2 && b >= 2 && a != b
    ensures Apart(ClusterExtent(g, a), ClusterExtent(g, b))
  {
    forall byte | Covers(ClusterExtent(g, a), byte) ensures !Covers(ClusterExtent(g, b), byte) {
      ExtentsAreDisjoint(g, a, b, byte);
    }
  }

  lemma UsedExtentIsApart(fat: Fat, g: Geometry, unreadable: set<nat>, ranges: seq<Extent>, cluster: nat, i: nat)
    requires g.Valid() && AreCarveRanges(fat, g, unreadable, ranges) && i < |ranges|
    requires 2 <= cluster < |fat| && fat[cluster] != 0
    ensures Apart(ClusterExtent(g, cluster), ranges[i])
  {
    forall byte | Covers(ClusterExtent(g, cluster), byte) ensures !Covers(ranges[i], byte) {
      UsedClustersAreNotCarved(fat, g, unreadable, cluster, byte);
      RangesCoverCarvableBytes(fat, g, unreadable, ranges, byte);
    }
  }
}
