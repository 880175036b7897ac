/**
 Cluster chains of FAT12 directory entries: following them, placing them on disk, and the free space between them
 (section "FAT Type Determination" of Microsoft's "FAT: General Overview of On-Disk Format" v1.03).
 */
module Fat12Chains {
  import opened Arithmetic
  import opened Collections
  import opened Wrappers

  const EOC_MIN := 0xFF8
  const BAD_CLUSTER := 0xFF7
  const RESERVED_MIN := 0xFF0

  /** `Fat12Geometry`, without the fields that only identify the medium. */
  datatype Geometry = Geometry(
    totalSectors: nat,
    sectorsPerCluster: nat,
    rootEntries: nat,
    sectorsPerFat: nat,
    bytesPerSector: nat,
    reservedSectors: nat,
    fatCount: nat)
  {
    function RootDirectorySectors(): nat
      requires bytesPerSector > 0
    {
      (rootEntries * 32 + bytesPerSector - 1) / bytesPerSector
    }

    function FirstDataSector(): nat
      requires bytesPerSector > 0
    {
      reservedSectors + fatCount * sectorsPerFat + RootDirectorySectors()
    }

    predicate Valid() {
      bytesPerSector > 0 && sectorsPerCluster > 0 && FirstDataSector() <= totalSectors
    }

    function ClusterCount(): nat
      requires Valid()
    {
      (totalSectors - FirstDataSector()) / sectorsPerCluster
    }

    function ClusterSize(): nat {
      sectorsPerCluster * bytesPerSector
    }
  }

  /** The data region begins with the first sector that the reserved sectors, the tables and the root entries leave. */
  lemma DataFollowsRootDirectory(g: Geometry)
    requires g.bytesPerSector > 0
    ensures var root := g.FirstDataSector() - g.reservedSectors - g.fatCount * g.sectorsPerFat;
      && root >= 0 && root * g.bytesPerSector >= g.rootEntries * 32
      && forall n: nat :: n * g.bytesPerSector >= g.rootEntries * 32 ==> n >= root
  {
    RoundedUpIsLeast(g.rootEntries * 32, g.bytesPerSector);
  }

  /** The data region holds so many clusters, and no more. */
  lemma ClusterCountIsGreatest(g: Geometry)
    requires g.Valid()
    ensures g.FirstDataSector() + g.ClusterCount() * g.sectorsPerCluster <= g.totalSectors
    ensures g.totalSectors < g.FirstDataSector() + (g.ClusterCount() + 1) * g.sectorsPerCluster
  {
    var room, c := g.totalSectors - g.FirstDataSector(), g.sectorsPerCluster;
    assert room == room / c * c + room % c;
    assert (room / c + 1) * c == room / c * c + c;
  }

  lemma RoundedUpIsLeast(size: nat, unit: nat)
    requires unit > 0
    ensures (size + unit - 1) / unit * unit >= size
    ensures forall n: nat :: n * unit >= size ==> n >= (size + unit - 1) / unit
  {
    var q := (size + unit - 1) / unit;
    assert size + unit - 1 == q * unit + (size + unit - 1) % unit;
    forall n: nat | n < q ensures n * unit < size {
      MulMonotone(n + 1, q, unit);
      assert (n + 1) * unit == n * unit + unit;
    }
  }

  const SUPPORTED_GEOMETRIES := [
    Geometry(720, 2, 112, 2, 512, 1, 2),
    Geometry(1440, 2, 112, 3, 512, 1, 2),
    Geometry(2400, 1, 224, 7, 512, 1, 2),
    Geometry(2880, 1, 224, 9, 512, 1, 2)]

  /** Every supported geometry has a data region, and few enough clusters for 12-bit entries to name them all. */
  lemma SupportedGeometriesAreFat12(g: Geometry)
    requires g in SUPPORTED_GEOMETRIES
    ensures g.Valid() && g.ClusterCount() < 4085 && g.ClusterCount() + 2 <= RESERVED_MIN
  {
  }

  // ----- Walks through the table -----

  type Fat = seq<nat>

  /** Distinct clusters, each one the table's successor of the one before. */
  ghost predicate IsWalk(fat: Fat, first: nat, chain: seq<nat>) {
    && chain != [] && chain[0] == first
    && (forall k {:trigger chain[k]} :: 0 <= k < |chain| ==> 2 <= chain[k] < |fat|)
    && (forall k {:trigger chain[k]} :: 0 < k < |chain| ==> chain[k] == fat[chain[k - 1]] && chain[k] < RESERVED_MIN)
    && Distinct(chain)
  }

  /** Why a walk stops after its last cluster. */
  datatype Stop = EndOfChain | BadMarker | FreeMarker | ReservedMarker | OutOfRange | Loop

  /** What the table entry of the last cluster means for the walk; `None` when the walk goes on. */
  function StopAfter(fat: Fat, chain: seq<nat>): Option<Stop>
    requires chain != [] && chain[|chain| - 1] < |fat|
  {
    var next := fat[chain[|chain| - 1]];
    if next >= EOC_MIN then Some(EndOfChain)
    else if next == BAD_CLUSTER then Some(BadMarker)
    else if next == 0 then Some(FreeMarker)
    else if next >= RESERVED_MIN || next < 2 then Some(ReservedMarker)
    else if next >= |fat| then Some(OutOfRange)
    else if next in chain then Some(Loop)
    else None
  }

  /** Inside a walk, no shorter part of it may stop. */
  lemma WalkGoesOn(fat: Fat, first: nat, chain: seq<nat>, n: nat)
    requires IsWalk(fat, first, chain) && 0 < n < |chain|
    ensures StopAfter(fat, chain[..n]).None?
  {
    assert chain[n] == fat[chain[n - 1]] && 2 <= chain[n] < |fat|;
    assert chain[n] !in chain[..n];
  }

  /** A first cluster determines its complete walk. */
  lemma WalkIsUnique(fat: Fat, first: nat, a: seq<nat>, b: seq<nat>)
    requires IsWalk(fat, first, a) && IsWalk(fat, first, b) && |a| <= |b|
    requires StopAfter(fat, a).Some?
    ensures a == b
  {
    forall k | 0 <= k < |a| ensures a[k] == b[k] {
      SamePrefix(fat, first, a, b, k);
    }
    assert a == b[..|a|];
    if |a| < |b| {
      WalkGoesOn(fat, first, b, |a|);
    }
  }

  lemma {:induction false} SamePrefix(fat: Fat, first: nat, a: seq<nat>, b: seq<nat>, k: nat)
    requires IsWalk(fat, first, a) && IsWalk(fat, first, b) && k < |a| && k < |b|
    ensures a[k] == b[k]
  {
    if k > 0 {
      SamePrefix(fat, first, a, b, k - 1);
    }
  }

  /** Distinct numbers below `n` and from 2 on: no more than `n - 2` of them. */
  lemma {:induction false} PigeonHole(chain: seq<nat>, n: nat)
    requires n >= 2 && forall k :: 0 <= k < |chain| ==> 2 <= chain[k] < n
    requires Distinct(chain)
    ensures |chain| <= n - 2
    decreases n
  {
    if chain == [] {
      return;
    }
    assert 2 <= chain[0] < n;
    if k :| 0 <= k < |chain| && chain[k] == n - 1 {
      var rest := chain[..k] + chain[k + 1..];
      PigeonHole(rest, n - 1);
    } else {
      PigeonHole(chain, n - 1);
    }
  }

  // ----- _allocated_chain -----

  datatype Status = Intact | Fragmented | Partial | PartialBadSector

  datatype Confidence = Certain | High | Low

  datatype Warning =
    | MissingFirstCluster | ClusterLoop | BadClusterMarker | TerminatedFree | ReservedClusterMarker
    | ChainShort | ChainLong | FragmentedChain

  datatype ChainResult = ChainResult(chain: seq<nat>, confidence: Confidence, status: Status, warnings: seq<Warning>)

  /** `_clusters_for_size`: the size divided by the cluster size, rounded up. */
  function ClustersForSize(size: nat, g: Geometry): nat
    requires g.Valid()
  {
    ClusterSizeIsPositive(g);
    (size + g.ClusterSize() - 1) / g.ClusterSize()
  }

  lemma ClusterSizeIsPositive(g: Geometry)
    requires g.Valid()
    ensures g.ClusterSize() > 0
  {
  }

  /** It is the least number of clusters that holds the size. */
  lemma ClustersForSizeIsLeast(size: nat, g: Geometry)
    requires g.Valid()
    ensures ClustersForSize(size, g) * g.ClusterSize() >= size
    ensures forall n: nat :: n * g.ClusterSize() >= size ==> n >= ClustersForSize(size, g)
  {
    ClusterSizeIsPositive(g);
    RoundedUpIsLeast(size, g.ClusterSize());
  }

  predicate Contiguous(chain: seq<nat>) {
    forall k {:trigger chain[k]} :: 0 < k < |chain| ==> chain[k] == chain[k - 1] + 1
  }

  lemma {:induction false} ContiguousFromFirst(chain: seq<nat>)
    requires Contiguous(chain)
    ensures forall k :: 0 <= k < |chain| ==> chain[k] == chain[0] + k
  {
    if chain != [] {
      for k := 0 to |chain| - 1
        invariant forall i :: 0 <= i <= k ==> chain[i] == chain[0] + i
      {
        assert chain[k + 1] == chain[k] + 1;
      }
    }
  }

  /** The status and the warning that a stop gives on its own. */
  function StopStatus(stop: Stop): Status {
    match stop
    case EndOfChain => Intact
    case OutOfRange => Intact
    case BadMarker => PartialBadSector
    case _ => Partial
  }

  function StopWarnings(stop: Stop): seq<Warning> {
    match stop
    case EndOfChain => []
    case OutOfRange => []
    case BadMarker => [BadClusterMarker]
    case FreeMarker => [TerminatedFree]
    case ReservedMarker => [ReservedClusterMarker]
    case Loop => [ClusterLoop]
  }

  /** The complete walk from `first`, and why it stops. */
  ghost predicate CompleteWalk(fat: Fat, first: nat, walk: seq<nat>, stop: Stop) {
    IsWalk(fat, first, walk) && StopAfter(fat, walk) == Some(stop)
  }

  /** What the last entry of a complete walk says: the status and the warning, marker by marker. */
  lemma LastEntrySays(fat: Fat, first: nat, walk: seq<nat>, stop: Stop)
    requires CompleteWalk(fat, first, walk, stop)
    ensures var next := fat[walk[|walk| - 1]];
      && (StopStatus(stop) == PartialBadSector <==> next == 0xFF7)
      && (StopStatus(stop) == Partial <==> next < 2 || 0xFF0 <= next < 0xFF7 || (next < 0xFF0 && next in walk))
      && (StopStatus(stop) == Intact <==> next >= 0xFF8 || (next < 0xFF0 && next >= |fat|))
      && StopWarnings(stop) == (
        if next == 0xFF7 then [BadClusterMarker]
        else if next == 0 then [TerminatedFree]
        else if next == 1 || 0xFF0 <= next < 0xFF7 then [ReservedClusterMarker]
        else if next < 0xFF0 && next in walk then [ClusterLoop]
        else [])
  {
  }

  /** The walk so far leads to `cursor`. */
  ghost predicate LeadsTo(fat: Fat, first: nat, chain: seq<nat>, cursor: nat) {
    if chain == [] then cursor == first
    else IsWalk(fat, first, chain) && cursor == fat[chain[|chain| - 1]] && 2 <= cursor < RESERVED_MIN
  }

  /** What the table entry of a newly added cluster decides. */
  ghost predicate Decided(fat: Fat, first: nat, chain: seq<nat>, next: nat) {
    if next >= EOC_MIN then CompleteWalk(fat, first, chain, EndOfChain)
    else if next == BAD_CLUSTER then CompleteWalk(fat, first, chain, BadMarker)
    else if next == 0 then CompleteWalk(fat, first, chain, FreeMarker)
    else if next >= RESERVED_MIN || next < 2 then CompleteWalk(fat, first, chain, ReservedMarker)
    else LeadsTo(fat, first, chain, next)
  }

  /** A new cluster extends the walk, and a walk never has more clusters than the table names. */
  lemma ExtendWalk(fat: Fat, first: nat, chain: seq<nat>, cursor: nat)
    requires LeadsTo(fat, first, chain, cursor) && 2 <= cursor < |fat| && cursor !in chain
    ensures Decided(fat, first, chain + [cursor], fat[cursor]) && |chain| + 1 <= |fat| - 2
  {
    PigeonHole(chain + [cursor], |fat|);
    assert IsWalk(fat, first, chain + [cursor]);
  }

  lemma ClosesLoop(fat: Fat, first: nat, chain: seq<nat>, cursor: nat)
    requires LeadsTo(fat, first, chain, cursor) && 2 <= cursor < |fat| && cursor in chain
    ensures CompleteWalk(fat, first, chain, Loop)
  {
  }

  /** Where the loop's own condition ends it: the link leads past the table. */
  lemma LeavesTable(fat: Fat, first: nat, chain: seq<nat>, cursor: nat)
    requires chain != [] && LeadsTo(fat, first, chain, cursor) && cursor >= |fat|
    ensures CompleteWalk(fat, first, chain, OutOfRange)
  {
  }

  /** Follows the table from `first`. Loop detection always fires before the bound on the length does. */
  method FollowChain(first: nat, fat: Fat, g: Geometry)
    returns (chain: seq<nat>, status: Status, warnings: seq<Warning>, ghost stop: Stop)
    requires g.Valid() && |fat| == g.ClusterCount() + 2 && 2 <= first < |fat|
    ensures CompleteWalk(fat, first, chain, stop) && |chain| <= g.ClusterCount()
    ensures status == StopStatus(stop) && warnings == StopWarnings(stop)
  {
    chain, status, warnings := [], Intact, [];
    var cursor := first;
    while 2 <= cursor < |fat| && |chain| <= g.ClusterCount()
      invariant |chain| <= g.ClusterCount() && 2 <= cursor && LeadsTo(fat, first, chain, cursor)
      invariant status == Intact && warnings == [] && (chain == [] ==> cursor < |fat|)
      decreases |fat| - |chain|
    {
      if cursor in chain {
        ClosesLoop(fat, first, chain, cursor);
        return chain, Partial, warnings + [ClusterLoop], Loop;
      }
      ExtendWalk(fat, first, chain, cursor);
      chain := chain + [cursor];
      var next := fat[cursor];
      if next >= EOC_MIN {
        return chain, status, warnings, EndOfChain;
      }
      if next == BAD_CLUSTER {
        return chain, PartialBadSector, warnings + [BadClusterMarker], BadMarker;
      }
      if next == 0 {
        return chain, Partial, warnings + [TerminatedFree], FreeMarker;
      }
      if next >= RESERVED_MIN || next < 2 {
        return chain, Partial, warnings + [ReservedClusterMarker], ReservedMarker;
      }
      cursor := next;
    }
    LeavesTable(fat, first, chain, cursor);
    stop := OutOfRange;
  }

  function LengthWarnings(found: nat, expected: nat): seq<Warning> {
    if found < expected then [ChainShort]
    else if found > expected && expected > 0 then [ChainLong]
    else []
  }

  /** What is recorded for an entry whose complete walk stops for this reason. */
  ghost predicate RecordsWalk(walk: seq<nat>, stop: Stop, size: nat, g: Geometry, r: ChainResult)
    requires g.Valid()
  {
    var expected := ClustersForSize(size, g);
    && r.chain == (if size == 0 || |walk| <= expected then walk else walk[..expected])
    && (r.status in {Intact, Fragmented} <==> stop in {EndOfChain, OutOfRange} && |walk| >= expected)
    && (r.status == PartialBadSector <==> stop == BadMarker && |walk| >= expected)
    && (r.status == Intact ==> Contiguous(r.chain)) && (r.status == Fragmented ==> !Contiguous(r.chain))
    && r.warnings == StopWarnings(stop) + LengthWarnings(|walk|, expected)
                     + (if r.status == Fragmented then [FragmentedChain] else [])
    && (r.confidence == Certain <==> r.status == Intact && r.warnings == [])
    && (r.confidence == Low <==> r.status in {Partial, PartialBadSector})
  }

  /** What is recorded for an allocated entry. */
  ghost predicate IsRecorded(first: nat, size: nat, fat: Fat, g: Geometry, r: ChainResult)
    requires g.Valid()
  {
    if size == 0 && first < 2 then r == ChainResult([], Certain, Intact, [])
    else if !(2 <= first < |fat|) then r == ChainResult([], Low, Partial, [MissingFirstCluster])
    else exists walk, stop :: CompleteWalk(fat, first, walk, stop) && RecordsWalk(walk, stop, size, g, r)
  }

  /** The chain recorded for an allocated entry. */
  method AllocatedChain(first: nat, size: nat, fat: Fat, g: Geometry) returns (r: ChainResult)
    requires g.Valid() && |fat| == g.ClusterCount() + 2
    ensures IsRecorded(first, size, fat, g, r)
  {
    if size == 0 && first < 2 {
      r := ChainResult([], Certain, Intact, []);
      return;
    }
    if first < 2 || first >= |fat| {
      r := ChainResult([], Low, Partial, [MissingFirstCluster]);
      return;
    }
    var chain, status, warnings, stop := FollowChain(first, fat, g);
    ghost var walk := chain;
    var expected := ClustersForSize(size, g);
    ExpectedIsPositiveIff(size, g);
    if |chain| < expected {
      warnings, status := warnings + [ChainShort], Partial;
    } else if |chain| > expected && expected > 0 {
      chain, warnings := chain[..expected], warnings + [ChainLong];
    }
    if status == Intact && !Contiguous(chain) {
      warnings, status := warnings + [FragmentedChain], Fragmented;
    }
    var confidence := if status == Intact && warnings == [] then Certain else High;
    if status == Partial || status == PartialBadSector {
      confidence := Low;
    }
    r := ChainResult(chain, confidence, status, warnings);
    assert RecordsWalk(walk, stop, size, g, r);
  }

  /** What the chain keeps of a walk, and the warnings and the status that say so. */
  lemma CutToSize(walk: seq<nat>, stop: Stop, size: nat, g: Geometry, r: ChainResult)
    requires g.Valid() && RecordsWalk(walk, stop, size, g, r)
    ensures size == 0 || |walk| <= ClustersForSize(size, g) ==> r.chain == walk
    ensures size > 0 && |walk| > ClustersForSize(size, g) ==> r.chain == walk[..ClustersForSize(size, g)]
    ensures |walk| < ClustersForSize(size, g) ==> r.status == Partial && ChainShort in r.warnings
    ensures ChainLong in r.warnings <==> size > 0 && |walk| > ClustersForSize(size, g)
  {
    LengthIsWarnedOf(walk, stop, size, g, r);
  }

  /** What a status says about the order of the chain, and what the confidence says about both. */
  lemma StatusSaysOrder(walk: seq<nat>, stop: Stop, size: nat, g: Geometry, r: ChainResult)
    requires g.Valid() && RecordsWalk(walk, stop, size, g, r)
    ensures r.status == Intact ==> forall k :: 0 <= k < |r.chain| ==> r.chain[k] == r.chain[0] + k
    ensures r.status == Fragmented ==> exists k :: 0 < k < |r.chain| && r.chain[k] != r.chain[k - 1] + 1
    ensures r.confidence == Certain <==> r.status == Intact && r.warnings == []
    ensures r.confidence == Low <==> r.status in {Partial, PartialBadSector}
  {
    if Contiguous(r.chain) {
      ContiguousFromFirst(r.chain);
    }
  }

  /**
    * The chain of an allocated entry is its complete walk, cut to the clusters that the size needs
    * if there is a size and the walk is longer, whatever its status; a size that the walk does not
    * hold makes the entry partial.
    */
  lemma ChainIsWalkCutToSize(first: nat, size: nat, fat: Fat, g: Geometry, r: ChainResult) returns (walk: seq<nat>)
    requires g.Valid() && IsRecorded(first, size, fat, g, r) && 2 <= first < |fat|
    ensures IsWalk(fat, first, walk) && StopAfter(fat, walk).Some?
    ensures size == 0 || |walk| <= ClustersForSize(size, g) ==> r.chain == walk
    ensures size > 0 && |walk| > ClustersForSize(size, g) ==> r.chain == walk[..ClustersForSize(size, g)]
    ensures |walk| < ClustersForSize(size, g) ==> r.status == Partial && ChainShort in r.warnings
    ensures ChainLong in r.warnings <==> size > 0 && |walk| > ClustersForSize(size, g)
    ensures r.status == Intact ==> forall k :: 0 <= k < |r.chain| ==> r.chain[k] == r.chain[0] + k
    ensures r.status == Fragmented ==> exists k :: 0 < k < |r.chain| && r.chain[k] != r.chain[k - 1] + 1
    ensures r.confidence == Certain <==> r.status == Intact && r.warnings == []
    ensures r.confidence == Low <==> r.status in {Partial, PartialBadSector}
  {
    var stop: Stop;
    walk, stop :| CompleteWalk(fat, first, walk, stop) && RecordsWalk(walk, stop, size, g, r);
    CutToSize(walk, stop, size, g, r);
    StatusSaysOrder(walk, stop, size, g, r);
  }

  lemma LengthIsWarnedOf(walk: seq<nat>, stop: Stop, size: nat, g: Geometry, r: ChainResult)
    requires g.Valid() && RecordsWalk(walk, stop, size, g, r)
    ensures |walk| < ClustersForSize(size, g) ==> r.status == Partial && ChainShort in r.warnings
    ensures ChainLong in r.warnings <==> size > 0 && |walk| > ClustersForSize(size, g)
  {
    ExpectedIsPositiveIff(size, g);
    var middle := LengthWarnings(|walk|, ClustersForSize(size, g));
    StopWarningsAreOther(stop);
    WarningsJoined(StopWarnings(stop), middle, if r.status == Fragmented then [FragmentedChain] else [], r.warnings);
  }

  lemma WarningsJoined(a: seq<Warning>, b: seq<Warning>, c: seq<Warning>, all: seq<Warning>)
    requires all == a + b + c
    ensures forall w :: w in all <==> w in a || w in b || w in c
  {
  }

  lemma StopWarningsAreOther(stop: Stop)
    ensures ChainLong !in StopWarnings(stop) && ChainShort !in StopWarnings(stop)
  {
  }

  /** Nothing is left open: first cluster, size and table determine what is recorded. */
  lemma RecordedIsUnique(first: nat, size: nat, fat: Fat, g: Geometry, r: ChainResult, s: ChainResult)
    requires g.Valid() && IsRecorded(first, size, fat, g, r) && IsRecorded(first, size, fat, g, s)
    ensures r == s
  {
    if 2 <= first < |fat| {
      var a, p :| CompleteWalk(fat, first, a, p) && RecordsWalk(a, p, size, g, r);
      var b, q :| CompleteWalk(fat, first, b, q) && RecordsWalk(b, q, size, g, s);
      CompleteWalkIsUnique(fat, first, a, p, b, q);
      SameWalkSameRecord(a, p, size, g, r, s);
    }
  }

  lemma CompleteWalkIsUnique(fat: Fat, first: nat, a: seq<nat>, p: Stop, b: seq<nat>, q: Stop)
    requires CompleteWalk(fat, first, a, p) && CompleteWalk(fat, first, b, q)
    ensures a == b && p == q
  {
    if |a| <= |b| {
      WalkIsUnique(fat, first, a, b);
    } else {
      WalkIsUnique(fat, first, b, a);
    }
  }

  lemma SameWalkSameRecord(walk: seq<nat>, stop: Stop, size: nat, g: Geometry, r: ChainResult, s: ChainResult)
    requires g.Valid() && RecordsWalk(walk, stop, size, g, r) && RecordsWalk(walk, stop, size, g, s)
    ensures r == s
  {
  }

  lemma ExpectedIsPositiveIff(size: nat, g: Geometry)
    requires g.Valid()
    ensures ClustersForSize(size, g) > 0 <==> size > 0
  {
    ClusterSizeIsPositive(g);
    ClustersForSizeIsLeast(size, g);
    if size == 0 {
      assert 0 * g.ClusterSize() >= size;
    }
  }

  /**
   An entry with a size that is intact or fragmented has exactly the clusters its size needs, none twice, none free.
   */
  lemma WholeChainHasItsSize(first: nat, size: nat, fat: Fat, g: Geometry, r: ChainResult)
    requires g.Valid() && size > 0 && IsRecorded(first, size, fat, g, r) && r.status in {Intact, Fragmented}
    ensures |r.chain| == ClustersForSize(size, g) && Distinct(r.chain)
    ensures forall k :: 0 <= k < |r.chain| ==> 2 <= r.chain[k] < |fat| && fat[r.chain[k]] != 0
  {
    var walk, stop :| CompleteWalk(fat, first, walk, stop) && RecordsWalk(walk, stop, size, g, r);
    ExpectedIsPositiveIff(size, g);
    WalkIsInUse(fat, first, walk, stop);
    PrefixIsInUse(fat, walk, r.chain);
  }

  ghost predicate InUse(fat: Fat, chain: seq<nat>) {
    Distinct(chain) && forall k :: 0 <= k < |chain| ==> 2 <= chain[k] < |fat| && fat[chain[k]] != 0
  }

  lemma WalkIsInUse(fat: Fat, first: nat, walk: seq<nat>, stop: Stop)
    requires CompleteWalk(fat, first, walk, stop) && stop != FreeMarker
    ensures InUse(fat, walk)
  {
    forall k | 0 <= k < |walk| ensures 2 <= walk[k] < |fat| && fat[walk[k]] != 0 {
      if k + 1 < |walk| {
        assert walk[k + 1] == fat[walk[k]];
      }
    }
  }

  lemma PrefixIsInUse(fat: Fat, walk: seq<nat>, chain: seq<nat>)
    requires InUse(fat, walk) && chain <= walk
    ensures InUse(fat, chain)
  {
    assert forall k :: 0 <= k < |chain| ==> chain[k] == walk[k];
  }

  // ----- Links past the end of the table -----

  /** The entry is a link to a cluster that the table does not have. */
  predicate LinksPastTable(fat: Fat, c: nat) {
    2 <= c < |fat| && |fat| <= fat[c] < RESERVED_MIN
  }

  predicate NotPartial(r: ChainResult) {
    r.status in {Intact, Fragmented}
  }

  /** Some walk leaves the table if and only if some entry links past its end. */
  lemma WalkLeavesTableIff(fat: Fat)
    ensures (exists first, walk :: CompleteWalk(fat, first, walk, OutOfRange)) <==> exists c :: LinksPastTable(fat, c)
  {
    if first, walk :| CompleteWalk(fat, first, walk, OutOfRange) {
      assert LinksPastTable(fat, walk[|walk| - 1]);
    }
    if c :| LinksPastTable(fat, c) {
      assert CompleteWalk(fat, c, [c], OutOfRange);
    }
  }

  /** The entry is recorded as intact and beyond doubt, although nothing in the table ends its chain. */
  ghost predicate PassesUnended(first: nat, size: nat, fat: Fat, g: Geometry, r: ChainResult)
    requires g.Valid()
  {
    && 2 <= first < |fat| && IsRecorded(first, size, fat, g, r) && r.status == Intact && r.warnings == []
    && exists walk :: CompleteWalk(fat, first, walk, OutOfRange)
  }

  ghost predicate EndsWithMark(fat: Fat, first: nat) {
    exists walk :: CompleteWalk(fat, first, walk, EndOfChain)
  }

  lemma LinkOrMark(first: nat, size: nat, fat: Fat, g: Geometry, r: ChainResult)
    requires g.Valid() && 2 <= first < |fat| && IsRecorded(first, size, fat, g, r) && NotPartial(r)
    ensures EndsWithMark(fat, first) || exists walk :: CompleteWalk(fat, first, walk, OutOfRange)
  {
    var walk, stop :| CompleteWalk(fat, first, walk, stop) && RecordsWalk(walk, stop, size, g, r);
  }

  /**
   Such an entry is possible exactly with a table that links past its own end. With any other table, what is
   recorded as intact or fragmented was ended by an end mark.
   */
  lemma OutOfRangeLinkPassesAsIntact(fat: Fat, g: Geometry)
    requires g.Valid() && |fat| == g.ClusterCount() + 2
    ensures (exists first, size, r :: PassesUnended(first, size, fat, g, r)) <==> exists c :: LinksPastTable(fat, c)
    ensures (forall c :: !LinksPastTable(fat, c)) ==>
      forall first, size, r :: 2 <= first < |fat| && IsRecorded(first, size, fat, g, r) && NotPartial(r) ==>
        EndsWithMark(fat, first)
  {
    WalkLeavesTableIff(fat);
    if c :| LinksPastTable(fat, c) {
      UnendedEntry(fat, g, c);
    }
    if forall c :: !LinksPastTable(fat, c) {
      forall first, size, r | 2 <= first < |fat| && IsRecorded(first, size, fat, g, r) && NotPartial(r)
        ensures EndsWithMark(fat, first)
      {
        LinkOrMark(first, size, fat, g, r);
      }
    }
  }

  /** A file of one cluster whose entry links past the table. */
  lemma UnendedEntry(fat: Fat, g: Geometry, c: nat)
    requires g.Valid() && |fat| == g.ClusterCount() + 2 && LinksPastTable(fat, c)
    ensures PassesUnended(c, 1, fat, g, ChainResult([c], Certain, Intact, []))
  {
    var r := ChainResult([c], Certain, Intact, []);
    OneByteNeedsOneCluster(g);
    assert CompleteWalk(fat, c, [c], OutOfRange);
    assert RecordsWalk([c], OutOfRange, 1, g, r);
  }

  lemma OneByteNeedsOneCluster(g: Geometry)
    requires g.Valid()
    ensures ClustersForSize(1, g) == 1
  {
    ClusterSizeIsPositive(g);
    ClustersForSizeIsLeast(1, g);
    assert 1 * g.ClusterSize() >= 1;
    ExpectedIsPositiveIff(1, g);
  }

  /** It happens on a supported medium: 356 table entries, and cluster 2 linked to a cluster 400. */
  method UnendedFileIsIntact(g: Geometry) returns (r: ChainResult)
    requires g == SUPPORTED_GEOMETRIES[0]
    ensures g.Valid() && |UnendedTable()| == g.ClusterCount() + 2
    ensures IsRecorded(2, 1, UnendedTable(), g, r) && r == ChainResult([2], Certain, Intact, [])
  {
    SmallestGeometry(g);
    var fat := UnendedTable();
    r := AllocatedChain(2, 1, fat, g);
    assert LinksPastTable(fat, 2);
    UnendedEntry(fat, g, 2);
    RecordedIsUnique(2, 1, fat, g, r, ChainResult([2], Certain, Intact, []));
  }

  /** No entry of this table is an end mark. */
  function UnendedTable(): (fat: Fat)
    ensures |fat| == 356 && fat[2] == 400 && forall c :: 0 <= c < |fat| ==> fat[c] < RESERVED_MIN
  {
    seq(356, i => if i == 2 then 400 else 0)
  }

  lemma SmallestGeometry(g: Geometry)
    requires g == SUPPORTED_GEOMETRIES[0]
    ensures g.Valid() && g.ClusterCount() == 354
  {
  }
}
