/** scanner/fat_entries.py: bounding a cluster chain, and turning it into extents. */
module FatEntries {
  import opened Arithmetic
  import opened Collections
  import opened Wrappers

  predicate IsEnd(c: int) {
    0xFF8 <= c < 0x1000 || 0x0FFF_FFF8 <= c < 0x1000_0000 || c == 0xFFFF_FFFF
  }

  predicate IsBad(c: int) {
    c in {0xFF7, 0x0FFF_FFF7, 0xFFFF_FFF7} || c < 2
  }

  /** The marks of FAT12 or FAT16, FAT32 and exFAT that may stand in a chain; no cluster is numbered below 2. */
  lemma MarksAre(c: int)
    ensures 0xFF8 <= c <= 0xFFF || 0x0FFF_FFF8 <= c <= 0x0FFF_FFFF || c == 0xFFFF_FFFF ==> IsEnd(c) && !IsBad(c)
    ensures c == 0xFF7 || c == 0x0FFF_FFF7 || c == 0xFFFF_FFF7 || c < 2 ==> IsBad(c) && !IsEnd(c)
    ensures (2 <= c < 0xFF7 || 0xFFF < c < 0x0FFF_FFF7 || 0x0FFF_FFFF < c < 0xFFFF_FFF7) ==> !IsEnd(c) && !IsBad(c)
  {
  }

  datatype ChainStatus = Complete | Corrupt | Truncated | Empty

  datatype Warning = BadClusterWarning | LoopBounded | ChainBounded | EndUnknown

  datatype Chain = Chain(clusters: seq<int>, status: ChainStatus, warning: Option<Warning>)

  /** The first `n` clusters are data clusters, each new, and within the limit. */
  ghost predicate Ordinary(chain: seq<int>, maxClusters: int, n: nat) {
    n <= |chain| && n <= maxClusters && Distinct(chain[..n]) && forall i :: 0 <= i < n ==>
      !IsEnd(chain[i]) && !IsBad(chain[i])
  }

  /** What stops the chain after its first `n` clusters. */
  function StopAt(chain: seq<int>, maxClusters: int, n: nat): Option<(ChainStatus, Option<Warning>)>
    requires n <= |chain|
  {
    if n == |chain| then Some(if n == 0 then (Empty, None) else (Complete, Some(EndUnknown)))
    else if IsEnd(chain[n]) then Some((Complete, None))
    else if IsBad(chain[n]) then Some((Corrupt, Some(BadClusterWarning)))
    else if chain[n] in chain[..n] then Some((Corrupt, Some(LoopBounded)))
    else if n >= maxClusters then Some((Truncated, Some(ChainBounded)))
    else None
  }

  /** The chain is cut at the first cluster that stops it, and nowhere else. */
  ghost predicate IsNormalized(chain: seq<int>, maxClusters: int, r: Chain) {
    exists n: nat ::
      && n <= |chain| && r.clusters == chain[..n]
      && StopAt(chain, maxClusters, n) == Some((r.status, r.warning))
      && forall k: nat :: k < n ==> StopAt(chain, maxClusters, k) == None
  }

  /** `normalize_cluster_chain` on a sequence of integers. */
  method NormalizeClusterChain(chain: seq<int>, maxClusters: int) returns (r: Option<Chain>)
    ensures r.None? <==> maxClusters <= 0
    ensures r.Some? ==> IsNormalized(chain, maxClusters, r.value)
    ensures r.Some? ==> Ordinary(chain, maxClusters, |r.value.clusters|)
    ensures r.Some? ==>
      var n := |r.value.clusters|;
      var status, warning := r.value.status, r.value.warning;
      && n <= |chain| && r.value.clusters == chain[..n]
      && (chain == [] ==> status == Empty && warning == None)
      && (n == |chain| > 0 ==> status == Complete && warning == Some(EndUnknown))
      && (n < |chain| && IsEnd(chain[n]) ==> status == Complete && warning == None)
      && (n < |chain| && IsBad(chain[n]) ==> status == Corrupt && warning == Some(BadClusterWarning))
      && (n < |chain| && !IsEnd(chain[n]) && !IsBad(chain[n]) && chain[n] in chain[..n] ==>
            status == Corrupt && warning == Some(LoopBounded))
      && (n < |chain| && !IsEnd(chain[n]) && !IsBad(chain[n]) && chain[n] !in chain[..n] ==>
            n == maxClusters && status == Truncated && warning == Some(ChainBounded))
  {
    if maxClusters <= 0 {
      return None;
    }
    var normalized: seq<int> := [];
    var seen: set<int> := {};
    for n := 0 to |chain|
      invariant normalized == chain[..n] && Ordinary(chain, maxClusters, n)
      invariant forall c :: c in seen <==> c in chain[..n]
      invariant forall k: nat :: k < n ==> StopAt(chain, maxClusters, k) == None
    {
      var c := chain[n];
      if IsEnd(c) {
        return Some(Chain(normalized, Complete, None));
      }
      if IsBad(c) {
        return Some(Chain(normalized, Corrupt, Some(BadClusterWarning)));
      }
      if c in seen {
        return Some(Chain(normalized, Corrupt, Some(LoopBounded)));
      }
      if |normalized| >= maxClusters {
        return Some(Chain(normalized, Truncated, Some(ChainBounded)));
      }
      assert chain[..n + 1] == chain[..n] + [c];
      seen := seen + {c};
      normalized := normalized + [c];
    }
    assert chain[..|chain|] == chain;
    if normalized == [] {
      return Some(Chain([], Empty, None));
    }
    return Some(Chain(normalized, Complete, Some(EndUnknown)));
  }

  /** The result is determined by the chain and the limit. */
  lemma NormalizedIsUnique(chain: seq<int>, maxClusters: int, r: Chain, s: Chain)
    requires IsNormalized(chain, maxClusters, r) && IsNormalized(chain, maxClusters, s)
    ensures r == s
  {
    var m: nat :| m <= |chain| && r.clusters == chain[..m]
      && StopAt(chain, maxClusters, m) == Some((r.status, r.warning))
                  && forall k: nat :: k < m ==> StopAt(chain, maxClusters, k) == None;
    var n: nat :| n <= |chain| && s.clusters == chain[..n]
      && StopAt(chain, maxClusters, n) == Some((s.status, s.warning))
                  && forall k: nat :: k < n ==> StopAt(chain, maxClusters, k) == None;
    assert m == n;
  }

  /** Without loops and within the limit, a chain is kept whole if and only if it has no end or bad mark in it. */
  lemma KeptWholeIff(chain: seq<int>, maxClusters: int, r: Chain)
    requires IsNormalized(chain, maxClusters, r) && 0 < |chain| <= maxClusters && Distinct(chain)
    ensures r.clusters == chain <==> forall i :: 0 <= i < |chain| ==> !IsEnd(chain[i]) && !IsBad(chain[i])
  {
    var n: nat :| n <= |chain| && r.clusters == chain[..n]
                  && StopAt(chain, maxClusters, n) == Some((r.status, r.warning))
                  && forall k: nat :: k < n ==> StopAt(chain, maxClusters, k) == None;
    assert chain[..|chain|] == chain;
    if n < |chain| {
      assert |r.clusters| < |chain|;
      assert chain[n] !in chain[..n];
      assert IsEnd(chain[n]) || IsBad(chain[n]);
    } else {
      forall i: nat | i < |chain| ensures !IsEnd(chain[i]) && !IsBad(chain[i]) {
        assert StopAt(chain, maxClusters, i) == None;
      }
    }
  }

  /** On FAT32, data clusters with the numbers of FAT12's marks are taken for those marks, and only they are. */
  lemma LargeChainIsWholeIff(chain: seq<int>, maxClusters: int, r: Chain)
    requires IsNormalized(chain, maxClusters, r) && 0 < |chain| <= maxClusters && Distinct(chain)
    requires forall i :: 0 <= i < |chain| ==> 2 <= chain[i] < 0x0FFF_FFF7
    ensures r.clusters == chain <==> forall i :: 0 <= i < |chain| ==> !(0xFF7 <= chain[i] <= 0xFFF)
  {
    KeptWholeIff(chain, maxClusters, r);
    assert forall c :: 2 <= c < 0x0FFF_FFF7 ==> (IsEnd(c) || IsBad(c) <==> 0xFF7 <= c <= 0xFFF);
  }

  /** On exFAT, whose data clusters go up to 0xFFFF_FFF6, so are those with the numbers of FAT32's marks. */
  lemma ExFatChainIsWholeIff(chain: seq<int>, maxClusters: int, r: Chain)
    requires IsNormalized(chain, maxClusters, r) && 0 < |chain| <= maxClusters && Distinct(chain)
    requires forall i :: 0 <= i < |chain| ==> 2 <= chain[i] < 0xFFFF_FFF7
    ensures r.clusters == chain <==>
      forall i :: 0 <= i < |chain| ==> !(0xFF7 <= chain[i] <= 0xFFF) && !(0x0FFF_FFF7 <= chain[i] <= 0x0FFF_FFFF)
  {
    KeptWholeIff(chain, maxClusters, r);
    assert forall c :: 2 <= c < 0xFFFF_FFF7 ==>
      (IsEnd(c) || IsBad(c) <==> 0xFF7 <= c <= 0xFFF || 0x0FFF_FFF7 <= c <= 0x0FFF_FFFF);
  }

  /** Two such files: one of FAT32 that loses its end, and one of exFAT that loses everything, both as complete. */
  method LargeChainsAreCut() returns (fat32: Chain, exFat: Chain)
    ensures fat32 == Chain([5000], Complete, None)
    ensures IsNormalized([5000, 0xFF8, 5001], 4096, fat32)
    ensures exFat == Chain([], Complete, None)
    ensures IsNormalized([0x0FFF_FFF8], 4096, exFat)
  {
    var a := NormalizeClusterChain([5000, 0xFF8, 5001], 4096);
    var b := NormalizeClusterChain([0x0FFF_FFF8], 4096);
    fat32, exFat := a.value, b.value;
    StopsHere([5000, 0xFF8, 5001], 4096, fat32, 1);
    StopsHere([0x0FFF_FFF8], 4096, exFat, 0);
  }

  lemma StopsHere(chain: seq<int>, maxClusters: int, r: Chain, n: nat)
    requires IsNormalized(chain, maxClusters, r) && n < |chain|
    requires forall k: nat :: k < n ==> StopAt(chain, maxClusters, k) == None
    requires StopAt(chain, maxClusters, n).Some?
    ensures var stop := StopAt(chain, maxClusters, n).value;
      r == Chain(chain[..n], stop.0, stop.1)
  {
    var stop := StopAt(chain, maxClusters, n).value;
    NormalizedIsUnique(chain, maxClusters, r, Chain(chain[..n], stop.0, stop.1));
  }

  // ----- Extents -----

  datatype Extent = Extent(offset: int, length: nat)

  function Total(extents: seq<Extent>): nat {
    if extents == [] then 0 else Total(extents[..|extents| - 1]) + extents[|extents| - 1].length
  }

  datatype ExtentError = InvalidGeometry | InvalidCluster

  /** Where a cluster's bytes begin. */
  function ClusterOffset(c: int, clusterSize: int, dataOffset: int): int {
    dataOffset + (c - 2) * clusterSize
  }

  ghost predicate ExtentFits(e: Extent, c: int, clusterSize: int, dataOffset: int) {
    c >= 2 && e.offset == ClusterOffset(c, clusterSize, dataOffset) && 0 < e.length <= clusterSize
  }

  function Smaller(a: nat, b: nat): nat {
    if a < b then a else b
  }

  function Capacity(chain: seq<int>, clusterSize: nat): nat {
    |chain| * clusterSize
  }

  /** `cluster_extents`: the extents' lengths add up to the smaller of the size and the chain's capacity. */
  method ClusterExtents(chain: seq<int>, clusterSize: int, dataOffset: int, size: Option<int>)
    returns (r: Result<seq<Extent>, ExtentError>)
    ensures r == Err(InvalidGeometry) <==> clusterSize <= 0 || dataOffset < 0 || (size.Some? && size.value < 0)
    ensures r == Err(InvalidCluster) ==> exists i :: 0 <= i < |chain| && chain[i] < 2
    ensures r.Ok? ==>
      && |r.value| <= |chain|
      && (forall i :: 0 <= i < |r.value| ==> ExtentFits(r.value[i], chain[i], clusterSize, dataOffset))
      && (forall i :: 0 <= i < |r.value| - 1 ==> r.value[i].length == clusterSize)
      && (forall i :: 0 <= i < |r.value| ==> r.value[i].offset == dataOffset + (chain[i] - 2) * clusterSize)
      && Total(r.value) ==
        if size.None? then Capacity(chain, clusterSize) else Smaller(size.value, Capacity(chain, clusterSize))
  {
    if clusterSize <= 0 || dataOffset < 0 || (size.Some? && size.value < 0) {
      return Err(InvalidGeometry);
    }
    var extents: seq<Extent> := [];
    var remaining := size;
    for k := 0 to |chain|
      invariant ExtentsSoFar(chain, clusterSize, dataOffset, size, k, extents, remaining)
    {
      var c := chain[k];
      if c < 2 {
        return Err(InvalidCluster);
      }
      if remaining == Some(0) {
        MulMonotone(k, |chain|, clusterSize);
        break;
      }
      var length := if remaining.Some? && remaining.value < clusterSize then remaining.value else clusterSize;
      ExtentAdded(chain, clusterSize, dataOffset, size, k, extents, remaining, length);
      extents := extents + [Extent(ClusterOffset(c, clusterSize, dataOffset), length)];
      remaining := if remaining.Some? then Some(remaining.value - length) else None;
    }
    return Ok(extents);
  }

  ghost predicate ExtentsSoFar(
    chain: seq<int>, clusterSize: nat, dataOffset: int, size: Option<int>, k: nat, extents: seq<Extent>,
    remaining: Option<int>)
  {
    && k <= |chain| && |extents| <= k
    && (forall i :: 0 <= i < |extents| ==> ExtentFits(extents[i], chain[i], clusterSize, dataOffset))
    && (forall i :: 0 <= i < |extents| - 1 ==> extents[i].length == clusterSize)
    && (size.None? <==> remaining.None?)
    && (remaining.Some? ==> remaining.value >= 0 && Total(extents) + remaining.value == size.value)
    && (remaining != Some(0) ==>
      |extents| == k && Total(extents) == k * clusterSize && (k > 0 ==> extents[k - 1].length == clusterSize))
    && (remaining == Some(0) ==> Total(extents) <= k * clusterSize)
  }

  lemma ExtentAdded(
    chain: seq<int>, clusterSize: nat, dataOffset: int, size: Option<int>, k: nat, extents: seq<Extent>,
    remaining: Option<int>, length: nat)
    requires ExtentsSoFar(chain, clusterSize, dataOffset, size, k, extents, remaining) && k < |chain|
    requires chain[k] >= 2 && remaining != Some(0) && clusterSize > 0
    requires length == if remaining.Some? && remaining.value < clusterSize then remaining.value else clusterSize
    ensures ExtentsSoFar(chain, clusterSize, dataOffset, size, k + 1,
      extents + [Extent(ClusterOffset(chain[k], clusterSize, dataOffset), length)],
                         if remaining.Some? then Some(remaining.value - length) else None)
  {
    var longer := extents + [Extent(ClusterOffset(chain[k], clusterSize, dataOffset), length)];
    assert longer[..|extents|] == extents;
    assert (k + 1) * clusterSize == k * clusterSize + clusterSize;
  }

  /** Extents of different clusters do not overlap. */
  lemma ExtentsAreDisjoint(e: Extent, f: Extent, c: int, d: int, clusterSize: nat, dataOffset: int)
    requires ExtentFits(e, c, clusterSize, dataOffset) && ExtentFits(f, d, clusterSize, dataOffset) && c < d
    ensures e.offset + e.length <= f.offset
  {
    assert (d - 2) * clusterSize == (c - 2) * clusterSize + (d - c) * clusterSize;
    MulMonotone(1, d - c, clusterSize);
  }
}
