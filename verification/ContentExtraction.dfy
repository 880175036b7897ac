/** scanner/content_extraction.py: copying a file's extents into scratch storage. */
module ContentExtraction {
  import opened Wrappers
  import opened Bytes
  import opened ReadErrors
  import opened ChunkPlan
  import opened ChunkStream
  import opened ScratchStore

  datatype EntryType = File | Deleted | OtherType

  datatype Entry = Entry(isAllocated: bool, entryType: EntryType, size: Option<int>, extents: seq<Extent>,
    provenance: Provenance)

  datatype SkipReason = NotAllocated | MetadataOnly | SizeLimitExceeded

  datatype Outcome =
    | Skipped(reason: SkipReason)
    | ExtentSizeMismatch
    | Partial(error: StoreError, extentIndex: nat)
    | Stored(digest: Digest, resumed: bool)

  datatype ExtractionError = InvalidLimit | BadExtent | InvalidCheckpoint | PutFailed(error: StoreError)

  /** Free disk space before and after the bytes are written. */
  datatype Space = Space(before: nat, after: nat)

  /** `sum_extent_lengths`, which refuses malformed extents. */
  method SumExtentLengths(extents: seq<Extent>) returns (total: Result<nat, ExtractionError>)
    ensures total.Ok? <==> Wellformed(extents)
    ensures total.Ok? ==> total.value == TotalLength(extents)
    ensures total.Err? ==> total.error == BadExtent
  {
    var sum: nat := 0;
    for i := 0 to |extents|
      invariant Wellformed(extents[..i]) && sum == TotalLength(extents[..i])
    {
      var e := extents[i];
      if e.offset < 0 || e.length < 0 {
        return Err(BadExtent);
      }
      TotalOneMore(extents, i);
      sum := sum + e.length;
    }
    assert extents[..|extents|] == extents;
    return Ok(sum);
  }

  lemma TotalOneMore(extents: seq<Extent>, i: nat)
    requires i < |extents| && Wellformed(extents[..i]) && extents[i].offset >= 0 && extents[i].length >= 0
    ensures Wellformed(extents[..i + 1])
      && TotalLength(extents[..i + 1]) == TotalLength(extents[..i]) + extents[i].length
  {
    assert extents[..i + 1] == extents[..i] + [extents[i]];
    assert extents[..i + 1][..i] == extents[..i];
  }

  /** The size the entry claims, or the size of its extents when it claims none. */
  function ExpectedSize(entry: Entry): int
    requires Wellformed(entry.extents)
  {
    if entry.size.Some? then entry.size.value else TotalLength(entry.extents)
  }

  /** What an extraction does before it reads anything. */
  function Decision(entry: Entry, maxSizeBytes: int, resume: Option<int>)
    : (r: Result<Option<Outcome>, ExtractionError>)
  {
    if maxSizeBytes <= 0 then Err(InvalidLimit)
    else if !entry.isAllocated then Ok(Some(Skipped(NotAllocated)))
    else if entry.entryType.OtherType? then Ok(Some(Skipped(MetadataOnly)))
    else if entry.size == Some(0) then Ok(None)
    else if entry.extents == [] then Ok(Some(Skipped(MetadataOnly)))
    else if !Wellformed(entry.extents) then Err(BadExtent)
    else if ExpectedSize(entry) != TotalLength(entry.extents) then Ok(Some(ExtentSizeMismatch))
    else if ExpectedSize(entry) > maxSizeBytes then Ok(Some(Skipped(SizeLimitExceeded)))
    else if resume.Some? && !(0 <= resume.value < |entry.extents|) then Err(InvalidCheckpoint)
    else Ok(None)
  }

  /** Each way in which an extraction ends before it reads, and when it does read. */
  lemma EndsBeforeReadingIff(entry: Entry, maxSizeBytes: int, resume: Option<int>)
    ensures var decision := Decision(entry, maxSizeBytes, resume);
      var file := maxSizeBytes > 0 && entry.isAllocated && entry.entryType in {File, Deleted};
      var present := file && entry.size != Some(0) && entry.extents != [];
      var sized := present && Wellformed(entry.extents)
        && (entry.size.Some? ==> entry.size.value == TotalLength(entry.extents));
      && (decision == Err(InvalidLimit) <==> maxSizeBytes <= 0)
      && (decision == Ok(Some(Skipped(NotAllocated))) <==> maxSizeBytes > 0 && !entry.isAllocated)
      && (decision == Ok(Some(Skipped(MetadataOnly))) <==>
          maxSizeBytes > 0 && entry.isAllocated
          && (entry.entryType.OtherType? || (entry.size != Some(0) && entry.extents == [])))
      && (decision == Err(BadExtent) <==> present && !Wellformed(entry.extents))
      && (decision == Ok(Some(ExtentSizeMismatch)) <==>
          present && Wellformed(entry.extents)
          && entry.size.Some? && entry.size.value != TotalLength(entry.extents))
      && (decision == Ok(Some(Skipped(SizeLimitExceeded))) <==> sized && TotalLength(entry.extents) > maxSizeBytes)
      && (decision == Err(InvalidCheckpoint) <==>
          sized && TotalLength(entry.extents) <= maxSizeBytes
          && resume.Some? && (resume.value < 0 || resume.value >= |entry.extents|))
      && (decision == Ok(None) <==>
          (file && entry.size == Some(0))
          || (sized && TotalLength(entry.extents) <= maxSizeBytes
              && (resume.Some? ==> 0 <= resume.value < |entry.extents|)))
  {
  }

  /** The extents an extraction copies: none for an empty file, else those from the checkpoint on. */
  function Selected(entry: Entry, resume: Option<int>): seq<Extent>
    requires entry.size != Some(0) && resume.Some? ==> 0 <= resume.value <= |entry.extents|
  {
    if entry.size == Some(0) then [] else entry.extents[(if resume.None? then 0 else resume.value)..]
  }

  lemma SelectedSize(extents: seq<Extent>, start: nat)
    requires Wellformed(extents) && start <= |extents|
    ensures PlannedLength(Plan(extents[start..])) == TotalLength(extents[start..])
    ensures TotalLength(extents[start..]) == TotalLength(extents) - TotalLength(extents[..start])
  {
    var rest, zeros := extents[start..], (offset: int) => 0;
    TotalConcat(extents[..start], rest);
    assert extents[..start] + rest == extents;
    PlannedIsTotal(zeros, rest);
  }

  lemma PlannedIsTotal(source: int -> Byte, extents: seq<Extent>)
    requires Wellformed(extents)
    ensures PlannedLength(Plan(extents)) == TotalLength(extents)
  {
    PlanIsExact(source, extents);
    FlatLength(source, extents);
    FillLength(source, AllRead(Plan(extents)));
  }

  /** So many bytes fit the quota of the store and the disk. */
  ghost predicate Fits(store: ScratchStore, length: nat, space: Space)
    reads store
  {
    store.Used() + length <= store.quotaBytes && length <= space.after
  }

  /** What an extraction stored: the selected extents, chunk by chunk, with zeros for what was lost. */
  ghost predicate Copied(
    device: Device, extents: seq<Extent>, readings: seq<Reading>, gaps: seq<ErrorRange>, content: seq<Byte>)
    requires Wellformed(extents)
  {
    && Follows(readings, Plan(extents))
    && LostAreNotSparse(readings)
    && GapsMatch(gaps, readings)
    && content == Fill(device.source, readings)
    && |content| == TotalLength(extents)
  }

  /** The counters agree with the recorded gaps. */
  ghost predicate Accounted(counters: Counters, gaps: seq<ErrorRange>) {
    exists ioErrors: nat, sleptMs: nat :: Balanced(counters, gaps, ioErrors, sleptMs)
  }

  /** A copy without gaps is the extents' bytes exactly. */
  lemma CopyWithoutGapsIsExact(device: Device, extents: seq<Extent>, readings: seq<Reading>, content: seq<Byte>)
    requires Wellformed(extents) && Copied(device, extents, readings, [], content)
    ensures content == Flat(device.source, extents)
  {
    NoGapsNothingLost(readings);
    PlanIsExact(device.source, extents);
    assert readings == AllRead(Plan(extents));
  }

  /** In any copy each chunk is the extents' bytes, or zeros where a gap was recorded. */
  lemma CopyIsExactOutsideGaps(
    device: Device, extents: seq<Extent>, readings: seq<Reading>, gaps: seq<ErrorRange>, content: seq<Byte>, k: nat)
    requires Wellformed(extents) && Copied(device, extents, readings, gaps, content) && k < |readings|
    ensures var from := Start(readings[..k]);
      var to := from + readings[k].chunk.length;
      && to <= |content| == |Flat(device.source, extents)|
      && content[from..to] == if readings[k].lost then Zeros(to - from) else Flat(device.source, extents)[from..to]
    ensures readings[k].lost ==> exists gap :: gap in gaps && RecordedAs(gap, readings[k].chunk)
  {
    ChunkIsSourceOrZeros(device.source, extents, readings, k);
    if readings[k].lost {
      LostIsRecorded(gaps, readings, k);
    }
  }

  lemma {:induction false} LostIsRecorded(gaps: seq<ErrorRange>, readings: seq<Reading>, k: nat)
    requires GapsMatch(gaps, readings) && k < |readings| && readings[k].lost
    ensures exists gap :: gap in gaps && RecordedAs(gap, readings[k].chunk)
    decreases |readings|
  {
    var last := |readings| - 1;
    var fewer := if readings[last].lost then gaps[..|gaps| - 1] else gaps;
    if k < last {
      LostIsRecorded(fewer, readings[..last], k);
      var gap :| gap in fewer && RecordedAs(gap, readings[..last][k].chunk);
      assert gap in gaps;
    }
  }

  /**
    * `extract_allocated_content`. With a policy the device can only leave gaps: no read error
    * ends the extraction, and the length stored is always the expected one.
    */
  method Extract(
    entry: Entry, device: Device, store: ScratchStore, maxSizeBytes: int, resume: Option<int>,
    policy: Option<ReadPolicy>, space: Space)
    returns (r: Result<Outcome, ExtractionError>, counters: Option<Counters>, ghost readings: seq<Reading>,
      ghost gaps: seq<ErrorRange>)
    requires store.Valid() && (policy.Some? ==> policy.value.Valid())
    modifies store
    ensures store.Valid()
    ensures Decision(entry, maxSizeBytes, resume).Err? ==> r == Err(Decision(entry, maxSizeBytes, resume).error)
    ensures Decision(entry, maxSizeBytes, resume).Ok? && Decision(entry, maxSizeBytes, resume).value.Some? ==>
      r == Ok(Decision(entry, maxSizeBytes, resume).value.value)
    ensures r.Ok? && r.value.Stored? ==>
      && Decision(entry, maxSizeBytes, resume) == Ok(None)
      && Wellformed(Selected(entry, resume))
      && |store.puts| == |old(store.puts)| + 1
      && var content := store.puts[|old(store.puts)|].content;
      && Copied(device, Selected(entry, resume), readings, gaps, content)
      && (policy.None? ==> gaps == [])
      && r.value.digest == store.sha256(content)
      && store.puts == old(store.puts) + [Put(content, entry.provenance)]
      && store.objects == old(store.objects)[r.value.digest := content]
      && r.value.resumed == (entry.size != Some(0) && resume.Some? && resume.value > 0)
    ensures !(r.Ok? && r.value.Stored?) ==>
      store.puts == old(store.puts) && store.objects == old(store.objects) && store.metadata == old(store.metadata)
    ensures r.Ok? && r.value.Partial? ==> r.value.error != SizeMismatch
    ensures r.Ok? && r.value.Partial? && policy.Some? ==> r.value.error !in {SourceFailed, InvalidChunk}
    ensures policy.Some? && Decision(entry, maxSizeBytes, resume) == Ok(None) && entry.size != Some(0) ==>
      r.Ok? && (r.value.Stored? <==> old(Fits(store, TotalLength(Selected(entry, resume)), space)))
    ensures counters.Some? ==> Accounted(counters.value, gaps)
    ensures Decision(entry, maxSizeBytes, resume) == Ok(None) ==>
      if entry.size == Some(0) then
        r.Ok? == (old(store.Used()) <= store.quotaBytes) && (r.Ok? ==> r.value.Stored?)
          && (r.Err? ==> r.error == PutFailed(QuotaExceeded))
      else r.Ok? && (r.value.Stored? || r.value.Partial?)
  {
    counters, readings, gaps := None, [], [];
    if maxSizeBytes <= 0 {
      return Err(InvalidLimit), counters, readings, gaps;
    }
    if !entry.isAllocated {
      return Ok(Skipped(NotAllocated)), counters, readings, gaps;
    }
    if entry.entryType.OtherType? {
      return Ok(Skipped(MetadataOnly)), counters, readings, gaps;
    }
    if entry.size == Some(0) {
      r, readings := ExtractEmpty(entry, device, store, space);
      return;
    }
    if entry.extents == [] {
      return Ok(Skipped(MetadataOnly)), counters, readings, gaps;
    }
    var total := SumExtentLengths(entry.extents);
    if total.Err? {
      return Err(total.error), counters, readings, gaps;
    }
    var expected := if entry.size.Some? then entry.size.value else total.value;
    if expected != total.value {
      return Ok(ExtentSizeMismatch), counters, readings, gaps;
    }
    if expected > maxSizeBytes {
      return Ok(Skipped(SizeLimitExceeded)), counters, readings, gaps;
    }
    var start := if resume.Some? then resume.value else 0;
    if start < 0 || start >= |entry.extents| {
      return Err(InvalidCheckpoint), counters, readings, gaps;
    }
    r, counters, readings, gaps := ExtractFrom(entry, device, store, start, expected, policy, space);
  }

  lemma NothingIsPlanned()
    ensures Plan([]) == [] && PlannedLength([]) == 0
  {
  }

  /** An empty file is stored without reading anything. */
  method ExtractEmpty(entry: Entry, device: Device, store: ScratchStore, space: Space)
    returns (r: Result<Outcome, ExtractionError>, ghost readings: seq<Reading>)
    requires store.Valid()
    modifies store
    ensures store.Valid()
    ensures r.Ok? <==> old(store.Used()) <= store.quotaBytes
    ensures r.Err? ==> r.error == PutFailed(QuotaExceeded)
    ensures r.Ok? ==>
      && r.value.Stored? && !r.value.resumed
      && |store.puts| == |old(store.puts)| + 1
      && var content := store.puts[|old(store.puts)|].content;
      && Copied(device, [], readings, [], content)
      && r.value.digest == store.sha256(content)
      && store.puts == old(store.puts) + [Put(content, entry.provenance)]
      && store.objects == old(store.objects)[r.value.digest := content]
    ensures r.Err? ==>
      store.puts == old(store.puts) && store.objects == old(store.objects) && store.metadata == old(store.metadata)
  {
    var nothing := StartReading(device, None, []);
    NothingIsPlanned();
    assert nothing.pending == [] && store.Used() == old(store.Used());
    var put := store.PutBytes(nothing, entry.provenance, Some(0), None, space.before, space.after);
    assert put.Err? ==> !put.error.SizeMismatch? && !put.error.DiskFull? && !put.error.HashMismatch?;
    assert put.Err? ==> !put.error.SourceFailed? && !put.error.InvalidChunk?;
    assert put.Err? ==> put.error.QuotaExceeded?;
    readings := nothing.readings;
    r := match put
      case Ok(digest) => Ok(Stored(digest, false))
      case Err(e) => Err(PutFailed(e));
  }

  /** The generator over these extents, with a reader of its own if there is a policy. */
  method StartReading(device: Device, policy: Option<ReadPolicy>, extents: seq<Extent>) returns (chunks: ChunkReader)
    requires Wellformed(extents) && (policy.Some? ==> policy.value.Valid())
    ensures fresh(chunks) && chunks.Valid() && chunks.device == device
    ensures chunks.readings == [] && chunks.pending == Plan(extents)
    ensures if policy.None? then chunks.reader == null else chunks.reader != null && fresh(chunks.reader)
  {
    var reader: ResilientReader? := null;
    if policy.Some? {
      reader := new ResilientReader(device, policy.value);
    }
    chunks := new ChunkReader(device, reader, extents);
  }

  /** What the generator has read, with the counters of its reader. */
  method Report(chunks: ChunkReader)
    returns (counters: Option<Counters>, ghost readings: seq<Reading>, ghost gaps: seq<ErrorRange>)
    requires chunks.Valid()
    ensures readings == chunks.readings && GapsMatch(gaps, readings)
    ensures chunks.reader == null ==> counters == None && gaps == []
    ensures chunks.reader != null ==> counters.Some? && Accounted(counters.value, gaps)
  {
    readings, gaps := chunks.readings, chunks.gaps;
    counters := if chunks.reader == null then None else Some(chunks.reader.counters);
  }

  /** The part of an extraction that reads: from extent `start` on. */
  method ExtractFrom(
    entry: Entry, device: Device, store: ScratchStore, start: nat, expected: int, policy: Option<ReadPolicy>,
    space: Space)
    returns (r: Result<Outcome, ExtractionError>, counters: Option<Counters>, ghost readings: seq<Reading>,
      ghost gaps: seq<ErrorRange>)
    requires store.Valid() && (policy.Some? ==> policy.value.Valid())
    requires Wellformed(entry.extents) && start < |entry.extents| && expected == TotalLength(entry.extents)
    modifies store
    ensures store.Valid() && r.Ok?
    ensures r.value.Stored? || (r.value.Partial? && r.value.extentIndex == start)
    ensures r.value.Stored? ==>
      && Wellformed(entry.extents[start..])
      && |store.puts| == |old(store.puts)| + 1
      && var content := store.puts[|old(store.puts)|].content;
      && Copied(device, entry.extents[start..], readings, gaps, content)
      && (policy.None? ==> gaps == [])
      && r.value.digest == store.sha256(content)
      && store.puts == old(store.puts) + [Put(content, entry.provenance)]
      && store.objects == old(store.objects)[r.value.digest := content]
      && r.value.resumed == (start > 0)
    ensures r.value.Partial? ==>
      store.puts == old(store.puts) && store.objects == old(store.objects) && store.metadata == old(store.metadata)
    ensures r.value.Partial? ==>
      r.value.error != SizeMismatch && (policy.Some? ==> r.value.error !in {SourceFailed, InvalidChunk})
    ensures policy.Some? ==> (r.value.Stored? <==> old(Fits(store, TotalLength(entry.extents[start..]), space)))
    ensures counters.Some? <==> policy.Some?
    ensures counters.Some? ==> Accounted(counters.value, gaps)
  {
    var rest := entry.extents[start..];
    var skipped := SumExtentLengths(entry.extents[..start]);
    SelectedSize(entry.extents, start);
    var chunks := StartReading(device, policy, rest);
    assert PlannedLength(chunks.pending) == expected - skipped.value == TotalLength(rest);
    var put := store.PutBytes(chunks, entry.provenance, Some(expected - skipped.value), None, space.before,
      space.after);
    counters, readings, gaps := Report(chunks);
    r := match put
      case Ok(digest) => Ok(Stored(digest, start > 0))
      case Err(e) => Ok(Partial(e, start));
  }
}
