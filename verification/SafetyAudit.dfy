/** hostd/safety_audit.py: an append-only log of hash-chained records, rotated into segments. */
module SafetyAudit {
  import opened Collections
  import opened Wrappers

  /** A SHA-256 digest, read as a number; the genesis digest is 64 zeros. */
  type Digest = nat

  const GENESIS: Digest := 0
  const AUDIT_SCHEMA_VERSION := 1
  const MAX_AUDIT_RECORD_BYTES := 64 * 1024
  const MAX_AUDIT_FILE_BYTES := 64 * 1024 * 1024

  datatype Event =
    | DeviceResolution | SystemDiskDecision | MountHolderCheck | DestinationSeparation
    | ReadOnlyVerification | ScannerSandboxProfile | AuditRotationContinuation
    | NotAllowlisted(text: string)

  /** A record without its own hash; `None` is a field of the wrong type. */
  datatype Material = Material(
    keysMatch: bool,
    schemaVersion: int,
    sequence: Option<int>,
    timestamp: Option<string>,
    event: Event,
    payload: Option<string>,
    previousHash: Option<Digest>)

  datatype Record = Record(material: Material, recordHash: Option<Digest>)

  /** One line of a log file: text that is no JSON object, or a record. */
  datatype Line = Unreadable(text: string) | Parsed(record: Record)

  /** SHA-256 of the canonical text, taken to be injective where a claim needs it. */
  type Hasher = Material -> Digest

  // ----- Verification -----

  /** All the checks that `_verify_lines` makes of one line. */
  predicate LineOk(hash: Hasher, line: Line, sequence: int, last: Digest) {
    && line.Parsed?
    && line.record.material.keysMatch
    && line.record.material.schemaVersion == AUDIT_SCHEMA_VERSION
    && !line.record.material.event.NotAllowlisted?
    && line.record.material.timestamp.Some?
    && line.record.material.payload.Some?
    && line.record.material.sequence == Some(sequence)
    && line.record.material.previousHash == Some(last)
    && line.record.recordHash == Some(hash(line.record.material))
  }

  function HashOf(line: Line): Digest {
    if line.Parsed? && line.record.recordHash.Some? then line.record.recordHash.value else GENESIS
  }

  /** The hash that the record after these lines must name. */
  function LastHash(lines: seq<Line>, start: Digest): Digest {
    if lines == [] then start else HashOf(lines[|lines| - 1])
  }

  ghost predicate LineOkAt(hash: Hasher, lines: seq<Line>, i: nat, first: int, start: Digest)
    requires i < |lines|
  {
    LineOk(hash, lines[i], first + i, LastHash(lines[..i], start))
  }

  /** The lines are one uninterrupted chain that begins at `first` and follows `start`. */
  ghost predicate Chained(hash: Hasher, lines: seq<Line>, first: int, start: Digest) {
    forall i: nat :: i < |lines| ==> LineOkAt(hash, lines, i, first, start)
  }

  ghost predicate IsLinked(hash: Hasher, lines: seq<Line>, i: nat, first: int, start: Digest)
    requires i < |lines|
  {
    && lines[i].Parsed?
    && var m := lines[i].record.material;
    && m.keysMatch && m.schemaVersion == 1 && !m.event.NotAllowlisted? && m.timestamp.Some? && m.payload.Some?
    && m.sequence == Some(first + i) && lines[i].record.recordHash == Some(hash(m))
    && (i == 0 ==> m.previousHash == Some(start))
    && (i > 0 ==> lines[i - 1].Parsed? && m.previousHash.Some? && m.previousHash == lines[i - 1].record.recordHash)
  }

  /**
    * What a chain is, line by line: records of this schema and with a listed event, numbered
    * without a gap, each naming the hash of the one before and carrying its own.
    */
  lemma ChainIs(hash: Hasher, lines: seq<Line>, first: int, start: Digest)
    ensures Chained(hash, lines, first, start) <==>
      forall i: nat :: i < |lines| ==> IsLinked(hash, lines, i, first, start)
  {
    if Chained(hash, lines, first, start) {
      forall i: nat | i < |lines| ensures IsLinked(hash, lines, i, first, start) {
        assert LineOkAt(hash, lines, i, first, start);
        assert i > 0 ==> LineOkAt(hash, lines, i - 1, first, start);
      }
    } else {
      var i: nat :| i < |lines| && !LineOkAt(hash, lines, i, first, start);
      assert !IsLinked(hash, lines, i, first, start);
    }
  }

  datatype State = State(nextSequence: int, lastHash: Digest, records: seq<Line>)

  method VerifyLines(hash: Hasher, lines: seq<Line>, first: int, start: Digest) returns (state: Option<State>)
    ensures state.Some? <==> Chained(hash, lines, first, start)
    ensures state.Some? ==> state.value == State(first + |lines|, LastHash(lines, start), lines)
  {
    var lastHash, expected, records: seq<Line> := start, first, [];
    for n := 0 to |lines|
      invariant expected == first + n && records == lines[..n] && lastHash == LastHash(lines[..n], start)
      invariant forall i: nat :: i < n ==> LineOkAt(hash, lines, i, first, start)
    {
      var line := lines[n];
      if !LineOk(hash, line, expected, lastHash) {
        assert !LineOkAt(hash, lines, n, first, start);
        return None;
      }
      assert lines[..n + 1] == lines[..n] + [line];
      lastHash := line.record.recordHash.value;
      expected := expected + 1;
      records := records + [line];
    }
    assert lines[..|lines|] == lines;
    state := Some(State(expected, lastHash, records));
  }

  predicate StartsWithContinuation(lines: seq<Line>) {
    lines != [] && lines[0].Parsed? && lines[0].record.material.event == AuditRotationContinuation
  }

  /** Only a continuation may begin anywhere but at the genesis. */
  ghost predicate MayStart(lines: seq<Line>, first: int, start: Digest) {
    StartsWithContinuation(lines) || (first == 1 && start == GENESIS)
  }

  /** `verify_audit_log`: a log that begins with a continuation is verified from the position it names. */
  method VerifyAuditLog(hash: Hasher, lines: seq<Line>) returns (state: Option<State>)
    ensures state.Some? <==>
      exists first, start :: Chained(hash, lines, first, start) && MayStart(lines, first, start)
    ensures state.Some? && !StartsWithContinuation(lines) ==>
      state.value == State(1 + |lines|, LastHash(lines, GENESIS), lines)
    ensures state.Some? && lines != [] ==>
      LineOk(hash, lines[0], state.value.nextSequence - |lines|, PreviousHash(lines[0]))
    ensures state.Some? && lines != [] ==>
      state.value.lastHash == LastHash(lines, GENESIS) && state.value.records == lines
  {
    var first, start := 1, GENESIS;
    if lines != [] {
      if lines[0].Unreadable? {
        NotChainedAtFirst(hash, lines);
        return None;
      }
      if StartsWithContinuation(lines) {
        var m := lines[0].record.material;
        if m.sequence.None? || m.previousHash.None? {
          NotChainedAtFirst(hash, lines);
          return None;
        }
        first, start := m.sequence.value, m.previousHash.value;
      }
    }
    state := VerifyLines(hash, lines, first, start);
    if lines != [] {
      forall f, s | Chained(hash, lines, f, s) && StartsWithContinuation(lines) ensures f == first && s == start {
        ChainedAtFirst(hash, lines, f, s);
      }
      if state.Some? {
        ChainedAtFirst(hash, lines, first, start);
      }
    }
  }

  function PreviousHash(line: Line): Digest {
    if line.Parsed? && line.record.material.previousHash.Some? then line.record.material.previousHash.value else GENESIS
  }

  lemma ChainedAtFirst(hash: Hasher, lines: seq<Line>, first: int, start: Digest)
    requires lines != [] && Chained(hash, lines, first, start)
    ensures LineOk(hash, lines[0], first, start)
  {
    assert LineOkAt(hash, lines, 0, first, start);
    assert lines[..0] == [];
  }

  lemma NotChainedAtFirst(hash: Hasher, lines: seq<Line>)
    requires lines != [] && (lines[0].Unreadable?
      || lines[0].record.material.sequence.None? || lines[0].record.material.previousHash.None?)
    ensures forall first, start :: !Chained(hash, lines, first, start)
  {
    forall first, start ensures !Chained(hash, lines, first, start) {
      if Chained(hash, lines, first, start) {
        ChainedAtFirst(hash, lines, first, start);
      }
    }
  }

  lemma LastHashConcat(a: seq<Line>, b: seq<Line>, start: Digest)
    ensures LastHash(a + b, start) == LastHash(b, LastHash(a, start))
  {
    if b == [] {
      assert a + b == a;
    }
  }

  lemma LineOkInFirst(hash: Hasher, a: seq<Line>, b: seq<Line>, i: nat, first: int, start: Digest)
    requires i < |a|
    ensures LineOkAt(hash, a + b, i, first, start) <==> LineOkAt(hash, a, i, first, start)
  {
    assert (a + b)[..i] == a[..i];
  }

  lemma LineOkInSecond(
    hash: Hasher, a: seq<Line>, b: seq<Line>, j: nat, first: int, start: Digest, second: int, middle: Digest)
    requires j < |b| && second == first + |a| && middle == LastHash(a, start)
    ensures LineOkAt(hash, a + b, |a| + j, first, start) <==> LineOkAt(hash, b, j, second, middle)
  {
    assert (a + b)[..|a| + j] == a + b[..j];
    LastHashConcat(a, b[..j], start);
  }

  /** Verifying two pieces one after the other is verifying them as one. */
  lemma ChainedConcat(hash: Hasher, a: seq<Line>, b: seq<Line>, first: int, start: Digest)
    ensures Chained(hash, a + b, first, start) <==>
      Chained(hash, a, first, start) && Chained(hash, b, first + |a|, LastHash(a, start))
  {
    var second, middle := first + |a|, LastHash(a, start);
    if Chained(hash, a + b, first, start) {
      forall i: nat | i < |a| ensures LineOkAt(hash, a, i, first, start) {
        LineOkInFirst(hash, a, b, i, first, start);
      }
      forall j: nat | j < |b| ensures LineOkAt(hash, b, j, second, middle) {
        LineOkInSecond(hash, a, b, j, first, start, second, middle);
      }
    }
    if Chained(hash, a, first, start) && Chained(hash, b, second, middle) {
      forall i: nat | i < |a + b| ensures LineOkAt(hash, a + b, i, first, start) {
        if i < |a| {
          LineOkInFirst(hash, a, b, i, first, start);
        } else {
          LineOkInSecond(hash, a, b, i - |a|, first, start, second, middle);
        }
      }
    }
  }

  /** `verify_audit_segments`: the segments verify exactly when their lines do, read as one log from the genesis. */
  method VerifyAuditSegments(hash: Hasher, segments: seq<seq<Line>>) returns (state: Option<State>)
    ensures state.Some? <==> Chained(hash, Flatten(segments), 1, GENESIS)
    ensures state.Some? ==>
      state.value == State(1 + |Flatten(segments)|, LastHash(Flatten(segments), GENESIS), Flatten(segments))
  {
    var expected, lastHash, all: seq<Line> := 1, GENESIS, [];
    for n := 0 to |segments|
      invariant all == Flatten(segments[..n]) && Chained(hash, all, 1, GENESIS)
      invariant expected == 1 + |all| && lastHash == LastHash(all, GENESIS)
    {
      var piece := VerifyLines(hash, segments[n], expected, lastHash);
      assert segments[..n + 1][..n] == segments[..n];
      ChainedConcat(hash, all, segments[n], 1, GENESIS);
      LastHashConcat(all, segments[n], GENESIS);
      if piece.None? {
        PrefixChained(hash, segments, n + 1);
        return None;
      }
      all := all + piece.value.records;
      expected, lastHash := piece.value.nextSequence, piece.value.lastHash;
    }
    assert segments[..|segments|] == segments;
    state := Some(State(expected, lastHash, all));
  }

  lemma {:induction false} PrefixChained(hash: Hasher, segments: seq<seq<Line>>, n: nat)
    requires n <= |segments|
    ensures Chained(hash, Flatten(segments), 1, GENESIS) ==> Chained(hash, Flatten(segments[..n]), 1, GENESIS)
    decreases |segments|
  {
    if n == |segments| {
      assert segments[..n] == segments;
    } else {
      var shorter := segments[..|segments| - 1];
      ChainedConcat(hash, Flatten(shorter), segments[|segments| - 1], 1, GENESIS);
      PrefixChained(hash, shorter, n);
      assert shorter[..n] == segments[..n];
    }
  }

  // ----- What the last hash fixes -----

  /** Two verified logs with the same next sequence and the same last hash hold identical records. */
  lemma {:induction false} SameEndSameRecords(hash: Hasher, a: seq<Line>, b: seq<Line>, first: int, start: Digest)
    requires Injective(hash) && Chained(hash, a, first, start) && Chained(hash, b, first, start)
    requires |a| == |b| && LastHash(a, start) == LastHash(b, start)
    ensures a == b
  {
    if a != [] {
      var n := |a| - 1;
      SplitLast(hash, a, first, start);
      SplitLast(hash, b, first, start);
      assert hash(a[n].record.material) == hash(b[n].record.material);
      SameEndSameRecords(hash, a[..n], b[..n], first, start);
      assert a == a[..n] + [a[n]] && b == b[..n] + [b[n]];
    }
  }

  lemma SplitLast(hash: Hasher, lines: seq<Line>, first: int, start: Digest)
    requires lines != [] && Chained(hash, lines, first, start)
    ensures var n := |lines| - 1;
      Chained(hash, lines[..n], first, start) && LineOk(hash, lines[n], first + n, LastHash(lines[..n], start))
  {
    var n := |lines| - 1;
    assert lines == lines[..n] + [lines[n]];
    ChainedConcat(hash, lines[..n], [lines[n]], first, start);
    ChainedAtFirst(hash, [lines[n]], first + n, LastHash(lines[..n], start));
  }

  // ----- The log itself -----

  /** The record that `_new_record` makes. */
  function NewRecord(hash: Hasher, event: Event, payload: string, time: string, sequence: int, last: Digest): Line {
    var m := Material(true, AUDIT_SCHEMA_VERSION, Some(sequence), Some(time), event, Some(payload), Some(last));
    Parsed(Record(m, Some(hash(m))))
  }

  lemma AppendKeepsChain(hash: Hasher, lines: seq<Line>, event: Event, payload: string, time: string)
    requires Chained(hash, lines, 1, GENESIS) && !event.NotAllowlisted?
    ensures Chained(hash, lines + [NewRecord(hash, event, payload, time, 1 + |lines|, LastHash(lines, GENESIS))], 1,
      GENESIS)
  {
    var line := NewRecord(hash, event, payload, time, 1 + |lines|, LastHash(lines, GENESIS));
    ChainedConcat(hash, lines, [line], 1, GENESIS);
    assert [line][..0] == [];
  }

  datatype AppendError = EventNotAllowlisted | LogInvalid | RecordTooLarge | RotationNeeded | SegmentExists | EmptyLog

  function FileSize(size: Line -> nat, lines: seq<Line>): nat {
    if lines == [] then 0 else FileSize(size, lines[..|lines| - 1]) + size(lines[|lines| - 1])
  }

  /** The rotated segments and the active file make up what was written, as one chain. */
  ghost predicate IsLog(hash: Hasher, size: Line -> nat, written: seq<Line>, rotated: seq<seq<Line>>, active: seq<Line>)
  {
    && written == Flatten(rotated) + active
    && Chained(hash, written, 1, GENESIS)
    && (rotated != [] ==> StartsWithContinuation(active))
    && FileSize(size, active) <= MAX_AUDIT_FILE_BYTES
  }

  class SafetyAuditLog {
    const hash: Hasher
    /** The encoded length of a record. */
    const size: Line -> nat
    const path: string

    /** The active file, when it exists, and the rotated segments with their names, oldest first. */
    var active: Option<seq<Line>>
    var rotated: seq<seq<Line>>
    var names: seq<string>

    /** Every record ever written, in order. */
    ghost var written: seq<Line>

    constructor (hash: Hasher, size: Line -> nat, path: string)
      ensures this.hash == hash && this.size == size && this.path == path
      ensures active == None && rotated == [] && names == [] && written == [] && Valid()
    {
      this.hash, this.size, this.path := hash, size, path;
      active, rotated, names, written := None, [], [], [];
    }

    function Active(): seq<Line>
      reads this
    {
      if active.Some? then active.value else []
    }

    /** All segments verify in order as one chain, and the active file goes on where the last segment ended. */
    ghost predicate Valid()
      reads this
    {
      IsLog(hash, size, written, rotated, Active())
    }

    /** Verifies the active file and finds where the chain stands. */
    method ReadState(lines: seq<Line>) returns (nextSequence: int, lastHash: Digest)
      requires Valid() && lines == Active()
      ensures nextSequence == 1 + |written| && lastHash == LastHash(written, GENESIS)
    {
      var state := VerifyAuditLog(hash, lines);
      ActiveVerifies(hash, Flatten(rotated), lines, rotated != [], state);
      nextSequence, lastHash := state.value.nextSequence, state.value.lastHash;
    }

    /** `append`: one more record at the end of the chain, or an error that changes nothing. */
    method Append(event: Event, payload: string, time: string) returns (r: Result<Line, AppendError>)
      requires Valid()
      modifies this
      ensures Valid() && rotated == old(rotated) && names == old(names)
      ensures r.Ok? ==>
        r.value == NewRecord(hash, event, payload, time, 1 + |old(written)|, LastHash(old(written), GENESIS))
      ensures r.Ok? ==> written == old(written) + [r.value] && active == Some(old(Active()) + [r.value])
      ensures r.Ok? ==>
        && r.value.Parsed? && r.value.record.material.event == event
        && r.value.record.material.payload == Some(payload) && r.value.record.material.timestamp == Some(time)
        && r.value.record.material.sequence == Some(1 + |old(written)|)
      ensures r.Err? ==> active == old(active) && written == old(written)
      ensures r == Err(EventNotAllowlisted) <==> event.NotAllowlisted?
      ensures !event.NotAllowlisted? ==>
        var record := NewRecord(hash, event, payload, time, 1 + |old(written)|, LastHash(old(written), GENESIS));
        r == if size(record) > MAX_AUDIT_RECORD_BYTES then Err(RecordTooLarge)
             else if FileSize(size, old(Active())) + size(record) > MAX_AUDIT_FILE_BYTES then Err(RotationNeeded)
             else Ok(record)
    {
      if event.NotAllowlisted? {
        return Err(EventNotAllowlisted);
      }
      var lines := Active();
      var nextSequence, lastHash := ReadState(lines);
      var record := NewRecord(hash, event, payload, time, nextSequence, lastHash);
      if size(record) > MAX_AUDIT_RECORD_BYTES {
        return Err(RecordTooLarge);
      }
      if FileSize(size, lines) + size(record) > MAX_AUDIT_FILE_BYTES {
        return Err(RotationNeeded);
      }
      AppendKeepsChain(hash, written, event, payload, time);
      AppendToActive(size, Flatten(rotated), lines, record);
      active, written := Some(lines + [record]), written + [record];
      r := Ok(record);
    }

    /** `rotate`: the active file becomes the last segment, and a continuation record starts a new one. */
    method Rotate(name: string, time: string) returns (r: Result<Line, AppendError>)
      requires Valid()
      // A file name has at most 255 bytes, so the continuation record always fits.
      requires size(NewRecord(hash, AuditRotationContinuation, name, time, 1 + |written|,
        LastHash(written, GENESIS))) <= MAX_AUDIT_RECORD_BYTES
      modifies this
      ensures Valid()
      ensures r.Err? ==>
        active == old(active) && rotated == old(rotated) && names == old(names) && written == old(written)
      ensures r.Err? <==> name == path || name in old(names) || old(Active()) == []
      ensures r.Ok? ==> rotated == old(rotated) + [old(Active())] && names == old(names) + [name]
      ensures r.Ok? ==> active == Some([r.value])
      ensures r.Ok? ==>
        r.value == NewRecord(hash, AuditRotationContinuation, name, time, 1 + |old(written)|,
          LastHash(old(written), GENESIS))
      ensures r.Ok? ==> written == old(written) + [r.value]
    {
      if name == path || name in names {
        return Err(SegmentExists);
      }
      var lines := Active();
      var nextSequence, lastHash := ReadState(lines);
      if lines == [] {
        return Err(EmptyLog);
      }
      var record := NewRecord(hash, AuditRotationContinuation, name, time, nextSequence, lastHash);
      RotateKeepsLog(hash, size, written, rotated, lines, name, time);
      rotated, names := rotated + [lines], names + [name];
      active, written := Some([record]), written + [record];
      r := Ok(record);
    }
  }

  lemma RotateKeepsLog(
    hash: Hasher, size: Line -> nat, written: seq<Line>, rotated: seq<seq<Line>>, lines: seq<Line>, name: string,
      time: string)
    requires IsLog(hash, size, written, rotated, lines)
    requires size(NewRecord(hash, AuditRotationContinuation, name, time, 1 + |written|,
      LastHash(written, GENESIS))) <= MAX_AUDIT_RECORD_BYTES
    ensures var record :=
      NewRecord(hash, AuditRotationContinuation, name, time, 1 + |written|, LastHash(written, GENESIS));
      IsLog(hash, size, written + [record], rotated + [lines], [record])
  {
    var record := NewRecord(hash, AuditRotationContinuation, name, time, 1 + |written|, LastHash(written, GENESIS));
    AppendKeepsChain(hash, written, AuditRotationContinuation, name, time);
    RotateActive(size, rotated, lines, record, written);
  }

  lemma AppendToActive(size: Line -> nat, before: seq<Line>, lines: seq<Line>, record: Line)
    ensures before + (lines + [record]) == before + lines + [record]
    ensures FileSize(size, lines + [record]) == FileSize(size, lines) + size(record)
    ensures StartsWithContinuation(lines) ==> StartsWithContinuation(lines + [record])
  {
    assert (lines + [record])[..|lines|] == lines;
  }

  lemma RotateActive(size: Line -> nat, rotated: seq<seq<Line>>, lines: seq<Line>, record: Line, written: seq<Line>)
    requires written == Flatten(rotated) + lines
    ensures written + [record] == Flatten(rotated + [lines]) + [record]
    ensures FileSize(size, [record]) == size(record)
  {
    assert (rotated + [lines])[..|rotated|] == rotated;
    assert [record][..0] == [];
  }

  /** Verifying the active file alone finds the position at which the whole log stands. */
  lemma ActiveVerifies(hash: Hasher, before: seq<Line>, lines: seq<Line>, continued: bool, state: Option<State>)
    requires Chained(hash, before + lines, 1, GENESIS)
    requires if continued then StartsWithContinuation(lines) else before == []
    requires state.Some? <==> exists first, start :: Chained(hash, lines, first, start) && MayStart(lines, first, start)
    requires state.Some? && !StartsWithContinuation(lines) ==>
      state.value == State(1 + |lines|, LastHash(lines, GENESIS), lines)
    requires state.Some? && lines != [] ==>
      LineOk(hash, lines[0], state.value.nextSequence - |lines|, PreviousHash(lines[0]))
    requires state.Some? && lines != [] ==>
      state.value.lastHash == LastHash(lines, GENESIS) && state.value.records == lines
    ensures state == Some(State(1 + |before + lines|, LastHash(before + lines, GENESIS), lines))
  {
    ChainedConcat(hash, before, lines, 1, GENESIS);
    LastHashConcat(before, lines, GENESIS);
    var first, start := 1 + |before|, LastHash(before, GENESIS);
    assert Chained(hash, lines, first, start) && MayStart(lines, first, start);
    if lines != [] {
      ChainedAtFirst(hash, lines, first, start);
    }
  }
}
