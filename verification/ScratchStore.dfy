/** shared/scratch_store.py: content-addressed storage of recovered bytes, with a quota. */
module ScratchStore {
  import opened Collections
  import opened Wrappers
  import opened Bytes
  import opened Sums
  import opened ChunkPlan
  import opened ChunkStream

  type Digest = nat

  /** Where a stored object came from; opaque here. */
  type Provenance = nat

  datatype Metadata = Metadata(size: nat, refCount: nat, provenance: seq<Provenance>)

  /** One successful `put_bytes`. */
  datatype Put = Put(content: seq<Byte>, provenance: Provenance)

  datatype StoreError = InvalidChunk | SourceFailed | QuotaExceeded | HashMismatch | SizeMismatch | DiskFull

  // ----- Directory sizes -----

  function Sizes(objects: map<Digest, seq<Byte>>): map<Digest, nat> {
    map d | d in objects :: |objects[d]|
  }

  // ----- What the history of puts determines -----

  /** The provenances recorded under a digest: one for each put of its content, in order. */
  function ProvenancesOf(puts: seq<Put>, sha256: seq<Byte> -> Digest, d: Digest): seq<Provenance> {
    if puts == [] then []
    else
      var last := puts[|puts| - 1];
      ProvenancesOf(puts[..|puts| - 1], sha256, d) + (if sha256(last.content) == d then [last.provenance] else [])
  }

  lemma ProvenancesGrow(puts: seq<Put>, p: Put, sha256: seq<Byte> -> Digest, d: Digest)
    ensures ProvenancesOf(puts + [p], sha256, d) ==
      ProvenancesOf(puts, sha256, d) + if sha256(p.content) == d then [p.provenance] else []
  {
    assert (puts + [p])[..|puts|] == puts;
  }

  /** The objects are the contents that were put, each under its digest and each with every provenance it came with. */
  ghost predicate Records(
    objects: map<Digest, seq<Byte>>, metadata: map<Digest, Metadata>, puts: seq<Put>, sha256: seq<Byte> -> Digest)
  {
    && objects.Keys == metadata.Keys
    && (forall d: Digest {:trigger d in objects} {:trigger ProvenancesOf(puts, sha256, d)} ::
          d in objects <==> ProvenancesOf(puts, sha256, d) != [])
    && (forall d :: d in objects ==> sha256(objects[d]) == d)
    && (forall d :: d in metadata ==> MetadataFits(metadata[d], objects[d], ProvenancesOf(puts, sha256, d)))
  }

  ghost predicate MetadataFits(m: Metadata, content: seq<Byte>, provenance: seq<Provenance>) {
    m.size == |content| && m.provenance == provenance && m.refCount == |provenance|
  }

  /** `_record_metadata`: a further reference to the object, or the first one. */
  function Referenced(metadata: map<Digest, Metadata>, d: Digest, size: nat, p: Provenance): Metadata {
    if d in metadata then metadata[d].(refCount := metadata[d].refCount + 1, provenance := metadata[d].provenance + [p])
    else Metadata(size, 1, [p])
  }

  lemma PutKeepsRecords(
    objects: map<Digest, seq<Byte>>, metadata: map<Digest, Metadata>, puts: seq<Put>, sha256: seq<Byte> -> Digest,
    p: Put)
    requires Records(objects, metadata, puts, sha256) && Injective(sha256)
    ensures var d := sha256(p.content);
      Records(objects[d := p.content], metadata[d := Referenced(metadata, d, |p.content|, p.provenance)], puts + [p],
        sha256)
  {
    var d := sha256(p.content);
    var objects', metadata' :=
      objects[d := p.content], metadata[d := Referenced(metadata, d, |p.content|, p.provenance)];
    forall e: Digest ensures e in objects' <==> ProvenancesOf(puts + [p], sha256, e) != [] {
      ProvenancesGrow(puts, p, sha256, e);
    }
    forall e: Digest | e in metadata'
      ensures MetadataFits(metadata'[e], objects'[e], ProvenancesOf(puts + [p], sha256, e))
    {
      ProvenancesGrow(puts, p, sha256, e);
      assert e != d ==> e in metadata;
      if e == d && d !in objects {
        assert ProvenancesOf(puts, sha256, d) == [];
      }
    }
  }

  ghost predicate Sound(
    quotaBytes: nat, sha256: seq<Byte> -> Digest, objects: map<Digest, seq<Byte>>, metadata: map<Digest, Metadata>,
    puts: seq<Put>)
  {
    && Injective(sha256)
    && Records(objects, metadata, puts, sha256)
    && Total(Sizes(objects)) <= quotaBytes
  }

  lemma PutKeepsSound(
    quotaBytes: nat, objects: map<Digest, seq<Byte>>, metadata: map<Digest, Metadata>, puts: seq<Put>,
    sha256: seq<Byte> -> Digest, p: Put)
    requires Sound(quotaBytes, sha256, objects, metadata, puts) && Total(Sizes(objects)) + |p.content| <= quotaBytes
    ensures var d := sha256(p.content);
      && Sound(quotaBytes, sha256, objects[d := p.content],
        metadata[d := Referenced(metadata, d, |p.content|, p.provenance)], puts + [p])
      && (d in objects ==> objects[d := p.content] == objects)
  {
    PutKeepsRecords(objects, metadata, puts, sha256, p);
    PutFitsQuota(objects, sha256(p.content), p.content);
    StoredIsSame(objects, sha256, p.content);
  }

  lemma StoredIsSame(objects: map<Digest, seq<Byte>>, sha256: seq<Byte> -> Digest, content: seq<Byte>)
    requires Injective(sha256) && forall d :: d in objects ==> sha256(objects[d]) == d
    ensures sha256(content) in objects ==> objects[sha256(content) := content] == objects
  {
    if sha256(content) in objects {
      assert objects[sha256(content)] == content;
    }
  }

  class ScratchStore {
    const quotaBytes: nat
    const sha256: seq<Byte> -> Digest
    const metadataBytes: Metadata -> nat
    var objects: map<Digest, seq<Byte>>
    var metadata: map<Digest, Metadata>
    ghost var puts: seq<Put>

    /** The store records every put, and its objects never exceed the quota. */
    ghost predicate Valid()
      reads this
    {
      Sound(quotaBytes, sha256, objects, metadata, puts)
    }

    constructor (quotaBytes: nat, sha256: seq<Byte> -> Digest, metadataBytes: Metadata -> nat)
      requires quotaBytes > 0 && Injective(sha256)
      ensures Valid() && puts == [] && this.quotaBytes == quotaBytes && this.sha256 == sha256
    {
      this.quotaBytes, this.sha256, this.metadataBytes := quotaBytes, sha256, metadataBytes;
      objects, metadata, puts := map[], map[], [];
    }

    function Descriptions(): map<Digest, nat>
      reads this
    {
      map d | d in metadata :: metadataBytes(metadata[d])
    }

    /** The bytes of the stored objects and of their metadata. */
    ghost function Used(): nat
      reads this
    {
      Total(Sizes(objects)) + Total(Descriptions())
    }

    /** `_check_available_quota`: objects and metadata, and the incoming bytes even if they are stored already. */
    method CheckAvailableQuota(incoming: nat, available: nat) returns (problem: Option<StoreError>)
      ensures problem ==
        if Used() + incoming > quotaBytes then Some(QuotaExceeded)
        else if incoming > available then Some(DiskFull)
        else None
    {
      var stored := SumOf(Sizes(objects));
      var described := SumOf(Descriptions());
      if stored + described + incoming > quotaBytes {
        return Some(QuotaExceeded);
      }
      problem := if incoming > available then Some(DiskFull) else None;
    }

    /** The bytes of the incomplete file: every chunk, unless the generator fails or the quota ends it. */
    method ReadAll(chunks: ChunkReader) returns (content: seq<Byte>, problem: Option<StoreError>)
      requires chunks.Valid() && chunks.readings == []
      modifies chunks, chunks.reader
      ensures chunks.Valid()
      ensures content == Fill(chunks.device.source, chunks.readings)
      ensures |content| > quotaBytes <==> problem == Some(QuotaExceeded)
      ensures problem.None? ==> Follows(chunks.readings, old(chunks.pending)) && LostAreNotSparse(chunks.readings)
      ensures problem.Some? ==>
        || problem.value == QuotaExceeded
        || (chunks.reader == null && problem.value in {SourceFailed, InvalidChunk} && old(chunks.pending) != [])
      ensures |content| <= PlannedLength(old(chunks.pending))
    {
      content, problem := [], None;
      ghost var plan := chunks.pending;
      while true
        invariant chunks.Valid() && problem.None?
        invariant Progress(chunks.readings, chunks.pending, plan)
        invariant content == Fill(chunks.device.source, chunks.readings) && |content| <= quotaBytes
        decreases |chunks.pending|
      {
        ghost var before, rest := chunks.readings, chunks.pending;
        var next, lost := chunks.NextChunk();
        match next
        case Done =>
          assert plan[..|before|] == plan;
          PlannedBytes(chunks.device.source, chunks.readings, plan);
          return;
        case SourceError =>
          PlannedBytes(chunks.device.source, chunks.readings, plan);
          return content, Some(SourceFailed);
        case NotAChunk =>
          PlannedBytes(chunks.device.source, chunks.readings, plan);
          return content, Some(InvalidChunk);
        case Bytes(bytes) =>
          FillLast(chunks.device.source, before, Reading(rest[0], lost));
          ProgressGoesOn(before, rest, plan, Reading(rest[0], lost));
          assert rest[1..] == chunks.pending;
          content := content + bytes;
          PlannedBytes(chunks.device.source, chunks.readings, plan);
          if |content| > quotaBytes {
            return content, Some(QuotaExceeded);
          }
      }
    }

    /** The object moved to its place, unless it is there already, and its metadata written. */
    method Store(content: seq<Byte>, provenance: Provenance)
      requires Valid() && Total(Sizes(objects)) + |content| <= quotaBytes
      modifies this
      ensures Valid()
      ensures objects == old(objects)[sha256(content) := content]
      ensures metadata ==
        old(metadata)[sha256(content) := Referenced(old(metadata), sha256(content), |content|, provenance)]
      ensures puts == old(puts) + [Put(content, provenance)]
    {
      var d := sha256(content);
      PutKeepsSound(quotaBytes, objects, metadata, puts, sha256, Put(content, provenance));
      if d !in objects {
        objects := objects[d := content];
      }
      metadata := metadata[d := Referenced(metadata, d, |content|, provenance)];
      puts := puts + [Put(content, provenance)];
    }

    /**
      * `put_bytes`: the content is stored once, under its digest, with one more provenance; a
      * failure leaves objects and metadata as they were.
      */
    method PutBytes(
      chunks: ChunkReader, provenance: Provenance, expectedSize: Option<int>, expectedSha256: Option<Digest>,
      availableBefore: nat, availableAfter: nat)
      returns (r: Result<Digest, StoreError>)
      requires Valid() && chunks.Valid() && chunks.readings == []
      modifies this, chunks, chunks.reader
      ensures Valid() && chunks.Valid()
      ensures r.Err? ==> objects == old(objects) && metadata == old(metadata) && puts == old(puts)
      ensures r.Ok? ==>
        && Follows(chunks.readings, old(chunks.pending)) && LostAreNotSparse(chunks.readings)
        && var content := Fill(chunks.device.source, chunks.readings);
        && r.value == sha256(content)
        && objects == old(objects)[r.value := content]
        && metadata == old(metadata)[r.value := Referenced(old(metadata), r.value, |content|, provenance)]
        && puts == old(puts) + [Put(content, provenance)]
        && (expectedSize.Some? ==> |content| == expectedSize.value)
        && (expectedSha256.Some? ==> r.value == expectedSha256.value)
      ensures r.Ok? ==>
        old(Used()) + PlannedLength(old(chunks.pending)) <= quotaBytes
          && PlannedLength(old(chunks.pending)) <= availableAfter
      ensures r == Err(QuotaExceeded) ==> old(Used()) + PlannedLength(old(chunks.pending)) > quotaBytes
      ensures r == Err(DiskFull) ==> PlannedLength(old(chunks.pending)) > availableAfter
      ensures r == Err(SizeMismatch) ==>
        expectedSize.Some? && expectedSize.value != PlannedLength(old(chunks.pending))
      ensures r == Err(HashMismatch) ==>
        && Follows(chunks.readings, old(chunks.pending))
        && expectedSha256.Some? && expectedSha256.value != sha256(Fill(chunks.device.source, chunks.readings))
      ensures r.Err? && r.error in {SourceFailed, InvalidChunk} ==> chunks.reader == null && old(chunks.pending) != []
    {
      var problem := CheckAvailableQuota(0, availableBefore);
      if problem.Some? {
        return Err(problem.value);
      }
      var content;
      ghost var plan := chunks.pending;
      content, problem := ReadAll(chunks);
      if problem.Some? {
        return Err(problem.value);
      }
      WholePlanBytes(chunks.device.source, chunks.readings, plan);
      var d := sha256(content);
      if expectedSha256.Some? && d != expectedSha256.value {
        return Err(HashMismatch);
      }
      if expectedSize.Some? && |content| != expectedSize.value {
        return Err(SizeMismatch);
      }
      problem := CheckAvailableQuota(|content|, availableAfter);
      if problem.Some? {
        return Err(problem.value);
      }
      Store(content, provenance);
      r := Ok(d);
    }
  }

  ghost predicate LostAreNotSparse(readings: seq<Reading>) {
    forall i :: 0 <= i < |readings| && readings[i].lost ==> !readings[i].chunk.sparse
  }

  /** How many bytes the chunks have, read or not. */
  function PlannedLength(chunks: seq<Chunk>): nat {
    Start(AllRead(chunks))
  }

  lemma WholePlanBytes(source: int -> Byte, readings: seq<Reading>, plan: seq<Chunk>)
    requires Follows(readings, plan)
    ensures |Fill(source, readings)| == PlannedLength(plan)
  {
    FillLength(source, readings);
    SameStart(readings, AllRead(plan));
  }

  lemma PlannedBytes(source: int -> Byte, readings: seq<Reading>, plan: seq<Chunk>)
    requires |readings| <= |plan| && Follows(readings, plan[..|readings|])
    ensures |Fill(source, readings)| <= PlannedLength(plan)
  {
    WholePlanBytes(source, readings, plan[..|readings|]);
    LongerPlan(plan, |readings|);
  }

  lemma {:induction false} LongerPlan(plan: seq<Chunk>, n: nat)
    requires n <= |plan|
    ensures PlannedLength(plan[..n]) <= PlannedLength(plan)
    decreases |plan|
  {
    if n == |plan| {
      assert plan[..n] == plan;
    } else {
      var front := plan[..|plan| - 1];
      LongerPlan(front, n);
      assert front[..n] == plan[..n];
      assert AllRead(plan)[..|plan| - 1] == AllRead(front);
    }
  }

  /** The readings so far are the first part of the plan, and the rest is pending. */
  ghost predicate Progress(readings: seq<Reading>, pending: seq<Chunk>, plan: seq<Chunk>) {
    && |readings| <= |plan|
    && Follows(readings, plan[..|readings|])
    && pending == plan[|readings|..]
    && LostAreNotSparse(readings)
  }

  lemma ProgressGoesOn(readings: seq<Reading>, pending: seq<Chunk>, plan: seq<Chunk>, r: Reading)
    requires Progress(readings, pending, plan) && pending != [] && r.chunk == pending[0]
    requires r.lost ==> !r.chunk.sparse
    ensures Progress(readings + [r], pending[1..], plan)
  {
    assert forall i :: 0 <= i < |readings| ==> plan[..|readings|][i] == plan[i];
  }

  lemma PutFitsQuota(objects: map<Digest, seq<Byte>>, d: Digest, content: seq<Byte>)
    ensures Total(Sizes(objects[d := content])) <= Total(Sizes(objects)) + |content|
  {
    var sizes := Sizes(objects);
    assert Sizes(objects[d := content]) == sizes[d := |content|];
    TotalWith(sizes - {d}, d, |content|);
    assert (sizes - {d})[d := |content|] == sizes[d := |content|];
    if d in sizes {
      TotalWithout(sizes, d);
    } else {
      assert sizes - {d} == sizes;
    }
  }
}
