/** scanner/content_extraction.py: the generator that reads a file's extents chunk by chunk. */
module ChunkStream {
  import opened Wrappers
  import opened Bytes
  import opened ReadErrors
  import opened ChunkPlan

  /** What asking the generator for its next chunk gives. */
  datatype Next = Bytes(bytes: seq<Byte>) | Done | SourceError | NotAChunk

  /** The gap a lost chunk leaves in the reader's records. */
  ghost predicate RecordedAs(gap: ErrorRange, c: Chunk) {
    gap.offset == c.offset && gap.length == c.length
  }

  /** The gaps recorded for these readings: one for each lost chunk, in order. */
  ghost predicate GapsMatch(gaps: seq<ErrorRange>, readings: seq<Reading>)
    decreases |readings|
  {
    if readings == [] then gaps == []
    else
      var front, last := readings[..|readings| - 1], readings[|readings| - 1];
      if last.lost then gaps != [] && RecordedAs(gaps[|gaps| - 1], last.chunk) && GapsMatch(gaps[..|gaps| - 1], front)
      else GapsMatch(gaps, front)
  }

  lemma GapsGrow(gaps: seq<ErrorRange>, readings: seq<Reading>, r: Reading, more: seq<ErrorRange>)
    requires GapsMatch(gaps, readings)
    requires if r.lost then |more| == 1 && RecordedAs(more[0], r.chunk) else more == []
    ensures GapsMatch(gaps + more, readings + [r])
  {
    var longer := readings + [r];
    assert longer[..|longer| - 1] == readings && longer[|longer| - 1] == r;
    if r.lost {
      assert (gaps + more)[..|gaps + more| - 1] == gaps;
    } else {
      assert gaps + more == gaps;
    }
  }

  lemma {:induction false} NoGapsNothingLost(readings: seq<Reading>)
    requires GapsMatch([], readings)
    ensures forall i :: 0 <= i < |readings| ==> !readings[i].lost
    decreases |readings|
  {
    if readings != [] {
      NoGapsNothingLost(readings[..|readings| - 1]);
    }
  }

  /** The chunks still to come, `remaining` bytes before the end of extent `index`. */
  function Rest(extents: seq<Extent>, index: nat, offset: int, remaining: int): (chunks: seq<Chunk>)
    requires index <= |extents|
  {
    if index == |extents| then [] else Cut(offset, remaining, extents[index].sparse) + Plan(extents[index + 1..])
  }

  /** Where the generator stands when it enters an extent. */
  function Entered(extents: seq<Extent>, index: nat): (int, int)
    requires index <= |extents|
  {
    if index == |extents| then (0, 0) else (extents[index].offset, extents[index].length)
  }

  lemma RestFromStart(extents: seq<Extent>, index: nat)
    requires index <= |extents|
    ensures Rest(extents, index, Entered(extents, index).0, Entered(extents, index).1) == Plan(extents[index..])
  {
    if index < |extents| {
      var tail := extents[index..];
      assert tail[0] == extents[index] && tail[1..] == extents[index + 1..];
    }
  }

  lemma RestOfFinished(extents: seq<Extent>, index: nat, offset: int, remaining: int)
    requires index < |extents| && remaining <= 0
    ensures Rest(extents, index, offset, remaining) ==
      Rest(extents, index + 1, Entered(extents, index + 1).0, Entered(extents, index + 1).1)
  {
    RestFromStart(extents, index + 1);
    assert Cut(offset, remaining, extents[index].sparse) == [];
  }

  lemma RestTakesOne(extents: seq<Extent>, index: nat, offset: int, remaining: int)
    requires index < |extents| && remaining > 0
    ensures var n := NextSize(remaining);
      Rest(extents, index, offset, remaining) ==
      [Chunk(offset, n, extents[index].sparse)] + Rest(extents, index, offset + n, remaining - n)
  {
    var n, sparse := NextSize(remaining), extents[index].sparse;
    var first, cut, plan :=
      [Chunk(offset, n, sparse)], Cut(offset + n, remaining - n, sparse), Plan(extents[index + 1..]);
    assert Cut(offset, remaining, sparse) == first + cut;
    assert (first + cut) + plan == first + (cut + plan);
  }

  /**
    * `_read_chunks`: where it is within the extents. It reads through the resilient reader if
    * there is a policy, and straight from the device if not.
    */
  class ChunkReader {
    const device: Device
    const reader: ResilientReader?
    const extents: seq<Extent>
    var index: nat
    var offset: int
    var remaining: int
    var rawReads: nat
    ghost var pending: seq<Chunk>
    ghost var readings: seq<Reading>
    ghost var gaps: seq<ErrorRange>

    ghost predicate Valid()
      reads this, reader
    {
      && index <= |extents|
      && Wellformed(extents)
      && offset >= 0
      && pending == Rest(extents, index, offset, remaining)
      && GapsMatch(gaps, readings)
      && (reader == null ==> gaps == [])
      && (reader != null ==> reader.Valid() && reader.device == device && reader.errorRanges == gaps)
    }

    /** The bytes of the first chunk that was pending, read now; the rest is pending. */
    ghost predicate Yielded(before: seq<Chunk>, readBefore: seq<Reading>, bytes: seq<Byte>, lost: bool)
      reads this
    {
      && before != [] && before == [before[0]] + pending
      && readings == readBefore + [Reading(before[0], lost)]
      && bytes == Piece(device.source, before[0], lost)
      && (lost ==> !before[0].sparse)
    }

    constructor (device: Device, reader: ResilientReader?, extents: seq<Extent>)
      requires Wellformed(extents)
      requires reader != null ==> reader.Valid() && reader.device == device && reader.errorRanges == []
      ensures Valid() && this.reader == reader && this.device == device && this.extents == extents
      ensures readings == [] && pending == Plan(extents)
    {
      this.device, this.reader, this.extents := device, reader, extents;
      index, rawReads, readings, gaps := 0, 0, [], [];
      offset, remaining := Entered(extents, 0).0, Entered(extents, 0).1;
      pending := Plan(extents);
      RestFromStart(extents, 0);
      assert extents[0..] == extents;
    }

    /** Skips the extents that are used up, and those that are empty. */
    method SkipFinished()
      requires Valid()
      modifies this`index, this`offset, this`remaining
      ensures Valid()
      ensures index == |extents| || remaining > 0
    {
      while index < |extents| && remaining <= 0
        invariant index <= |extents| && offset >= 0
        invariant pending == Rest(extents, index, offset, remaining)
        decreases |extents| - index
      {
        RestOfFinished(extents, index, offset, remaining);
        index := index + 1;
        offset, remaining := Entered(extents, index).0, Entered(extents, index).1;
      }
    }

    /** A chunk from a device that is read without a policy. */
    method ReadRaw(size: nat) returns (next: Next)
      modifies this`rawReads
      ensures !next.Done? && rawReads == old(rawReads) + 1
      ensures next.Bytes? ==> next.bytes == Slice(device.source, offset, size)
      ensures next.Bytes? <==> device.behaviour(old(rawReads), offset, size) == Returned(size)
      ensures next.NotAChunk? <==> device.behaviour(old(rawReads), offset, size).NotBytes?
    {
      var outcome := device.behaviour(rawReads, offset, size);
      rawReads := rawReads + 1;
      match outcome
      case Returned(count) => next := if count == size then Bytes(Slice(device.source, offset, size)) else SourceError;
      case NotBytes => next := NotAChunk;
      case Timeout => next := SourceError;
      case IoError => next := SourceError;
    }

    /** One chunk: zeros if sparse, else read in the way the extraction was asked to. */
    method ReadChunk(chunk: Chunk) returns (next: Next, ghost lost: bool)
      requires Valid() && chunk.length <= CHUNK_SIZE && chunk.offset == offset
      modifies this`rawReads, this`readings, this`gaps, reader
      ensures Valid() && !next.Done?
      ensures next.Bytes? ==>
        readings == old(readings) + [Reading(chunk, lost)] && next.bytes == Piece(device.source, chunk, lost)
      ensures lost ==> !chunk.sparse
      ensures !next.Bytes? ==> reader == null && readings == old(readings)
    {
      lost := false;
      ghost var more: seq<ErrorRange> := [];
      if chunk.sparse {
        next := Bytes(Zeros(chunk.length));
      } else if reader == null {
        next := ReadRaw(chunk.length);
        if !next.Bytes? {
          return;
        }
      } else {
        var outcome, _ := reader.ReadOrGap(offset, chunk.length);
        next := Bytes(outcome.value.0);
        if outcome.value.1.Some? {
          lost := true;
          more := [outcome.value.1.value];
        }
      }
      GapsGrow(gaps, readings, Reading(chunk, lost), more);
      gaps := gaps + more;
      readings := readings + [Reading(chunk, lost)];
    }

    /**
      * Resumes the generator. It yields the next pending chunk: the source's bytes, or zeros when
      * the chunk is sparse or is recorded as a gap; with a policy it never raises.
      */
    method NextChunk() returns (next: Next, ghost lost: bool)
      requires Valid()
      modifies this, reader
      ensures Valid()
      ensures next.Done? <==> old(pending) == []
      ensures next.Done? ==> pending == [] && readings == old(readings)
      ensures next.Bytes? ==> Yielded(old(pending), old(readings), next.bytes, lost)
      ensures next.SourceError? || next.NotAChunk? ==> reader == null && readings == old(readings)
    {
      SkipFinished();
      if index == |extents| {
        return Done, false;
      }
      next, lost := TakeChunk();
    }

    /** The next chunk of an extent that is not used up. */
    method TakeChunk() returns (next: Next, ghost lost: bool)
      requires Valid() && index < |extents| && remaining > 0
      modifies this, reader
      ensures Valid() && !next.Done?
      ensures next.Bytes? ==> Yielded(old(pending), old(readings), next.bytes, lost)
      ensures !next.Bytes? ==> reader == null && readings == old(readings)
    {
      RestTakesOne(extents, index, offset, remaining);
      var size := NextSize(remaining);
      var chunk := Chunk(offset, size, extents[index].sparse);
      ghost var rest := Rest(extents, index, offset + size, remaining - size);
      next, lost := ReadChunk(chunk);
      if next.Bytes? {
        pending := rest;
        offset, remaining := offset + size, remaining - size;
      }
    }
  }
}
