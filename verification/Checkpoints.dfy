/** shared/checkpoints.py and shared/media_checkpoints.py: superseding checkpoints with an integrity digest. */
module Checkpoints {
  import opened Collections
  import opened Wrappers
  import opened Bytes
  import opened CanonicalJson

  const SUPPORTED_CHECKPOINT_VERSION := 1
  const MAX_CHECKPOINT_TEXT := 128

  type Digest = nat

  /** What a caller saves and a load returns. */
  datatype Checkpoint = Checkpoint(
    fingerprint: string,
    stage: string,
    version: nat,
    toolName: string,
    toolVersion: string,
    cursor: Json,
    counters: Json,
    blob: seq<Byte>)

  /** What a row stores and the digest covers; cursor and counters are JSON text. */
  datatype Fields = Fields(
    fingerprint: string,
    stage: string,
    version: nat,
    toolName: string,
    toolVersion: string,
    cursor: string,
    counters: string,
    blob: seq<Byte>)

  /**
    * The libraries: UTF-8 encoding and SHA-256 (a claim that needs them injective says so),
    * the text of a JSON document and json.loads, and the key of a medium identity record.
    */
  datatype Codec = Codec(
    utf8: string -> seq<Byte>,
    sha256: seq<Byte> -> Digest,
    write: Json -> string,
    read: string -> Option<Json>,
    mediumKey: Json -> Option<string>)

  ghost predicate InjectiveCodec(c: Codec) {
    Injective(c.utf8) && Injective(c.sha256)
  }

  /** The eight values that `_integrity_hash` frames, in order. */
  function FramedValues(c: Codec, f: Fields): (values: seq<seq<Byte>>)
    ensures |values| == 8
  {
    [c.utf8(f.fingerprint), c.utf8(f.stage), Decimal(f.version), c.utf8(f.toolName), c.utf8(f.toolVersion),
     c.utf8(f.cursor), c.utf8(f.counters), f.blob]
  }

  function Integrity(c: Codec, f: Fields): Digest {
    c.sha256(Message(FramedValues(c, f)))
  }

  /** No value is as long as 2 to the power 64 bytes. */
  ghost predicate FieldsFramable(c: Codec, f: Fields) {
    forall i :: 0 <= i < 8 ==> Framable(FramedValues(c, f)[i])
  }

  /** Equal digests mean equal fields, every one of them. */
  lemma IntegrityFixesFields(c: Codec, f: Fields, g: Fields)
    requires InjectiveCodec(c) && FieldsFramable(c, f) && FieldsFramable(c, g)
    requires Integrity(c, f) == Integrity(c, g)
    ensures f == g
  {
    var v, w := FramedValues(c, f), FramedValues(c, g);
    MessageIsInjective(v, w);
    assert v[0] == w[0] && v[1] == w[1] && v[2] == w[2] && v[3] == w[3];
    assert v[4] == w[4] && v[5] == w[5] && v[6] == w[6] && v[7] == w[7];
    DecimalReadsBack(f.version);
    DecimalReadsBack(g.version);
  }

  // ----- The table -----

  /** Checkpoint ids matter for equality and for breaking ties, so an id is its rank in text order. */
  type Id = nat

  /** The chain a checkpoint belongs to. */
  datatype Slot = Slot(job: nat, stage: string)

  datatype Row = Row(
    job: nat,
    fields: Fields,
    medium: Option<string>,
    digest: Digest,
    supersedes: Option<Id>,
    supersededBy: Option<Id>,
    createdAt: int)

  type Rows = map<Id, Row>

  predicate InSlot(r: Row, s: Slot) {
    r.job == s.job && r.fields.stage == s.stage
  }

  /** A row that `_latest_checkpoint_id` considers. */
  predicate Current(rows: Rows, s: Slot, id: Id) {
    id in rows && InSlot(rows[id], s) && rows[id].supersededBy.None?
  }

  /** `ORDER BY created_at DESC, checkpoint_id DESC`. */
  predicate Later(rows: Rows, a: Id, b: Id)
    requires a in rows && b in rows
  {
    rows[a].createdAt > rows[b].createdAt || (rows[a].createdAt == rows[b].createdAt && a >= b)
  }

  /** The SELECT of `_latest_checkpoint_id`. */
  method LatestCheckpointId(rows: Rows, s: Slot) returns (latest: Option<Id>)
    ensures latest.None? ==> forall id :: !Current(rows, s, id)
    ensures latest.Some? ==> Current(rows, s, latest.value)
    ensures latest.Some? ==> forall id :: Current(rows, s, id) ==>
      || rows[latest.value].createdAt > rows[id].createdAt
      || (rows[latest.value].createdAt == rows[id].createdAt && latest.value >= id)
  {
    latest := None;
    var todo := rows.Keys;
    while todo != {}
      invariant todo <= rows.Keys
      invariant latest.None? ==> forall id :: Current(rows, s, id) ==> id in todo
      invariant latest.Some? ==> Current(rows, s, latest.value)
      invariant latest.Some? ==> forall id :: Current(rows, s, id) && id !in todo ==> Later(rows, latest.value, id)
    {
      var id :| id in todo;
      if Current(rows, s, id) && (latest.None? || Later(rows, id, latest.value)) {
        latest := Some(id);
      }
      todo := todo - {id};
    }
  }

  // ----- One chain per slot -----

  function Before(path: seq<Id>, i: nat): Option<Id>
    requires i < |path|
  {
    if i == 0 then None else Some(path[i - 1])
  }

  function Behind(path: seq<Id>, i: nat): Option<Id>
    requires i < |path|
  {
    if i + 1 == |path| then None else Some(path[i + 1])
  }

  ghost predicate LinkedAt(rows: Rows, path: seq<Id>, i: nat)
    requires i < |path|
  {
    path[i] in rows && rows[path[i]].supersedes == Before(path, i) && rows[path[i]].supersededBy == Behind(path, i)
  }

  /** The rows of a slot form one doubly linked path, from its first save to its last. */
  ghost predicate IsChain(rows: Rows, s: Slot, path: seq<Id>) {
    && (forall i: nat :: i < |path| ==> LinkedAt(rows, path, i))
    && Distinct(path)
    && (forall id :: id in path <==> id in rows && InSlot(rows[id], s))
  }

  /** Only the last save of a chain is not superseded, whatever `created_at` says. */
  lemma OnlyTheLastIsCurrent(rows: Rows, s: Slot, path: seq<Id>, id: Id)
    requires IsChain(rows, s, path)
    ensures Current(rows, s, id) <==> path != [] && id == path[|path| - 1]
  {
    if path != [] {
      assert LinkedAt(rows, path, |path| - 1);
    }
    if id in path {
      var i :| 0 <= i < |path| && path[i] == id;
      assert LinkedAt(rows, path, i);
    }
  }

  /** The table after a committed save: the new row inserted, its predecessor pointed at it. */
  function Saved(rows: Rows, id: Id, row: Row): Rows
    requires row.supersedes.Some? ==> row.supersedes.value in rows
  {
    var inserted := rows[id := row];
    match row.supersedes
    case None => inserted
    case Some(previous) => inserted[previous := inserted[previous].(supersededBy := Some(id))]
  }

  lemma SavedRow(rows: Rows, id: Id, row: Row)
    requires id !in rows && (row.supersedes.Some? ==> row.supersedes.value in rows)
    ensures Saved(rows, id, row).Keys == rows.Keys + {id} && Saved(rows, id, row)[id] == row
  {
  }

  /** A save extends the chain of its slot by one. */
  lemma SaveExtendsChain(rows: Rows, id: Id, row: Row, s: Slot, path: seq<Id>)
    requires IsChain(rows, s, path) && id !in rows && InSlot(row, s) && row.supersededBy.None?
    requires row.supersedes == if path == [] then None else Some(path[|path| - 1])
    ensures row.supersedes.Some? ==> row.supersedes.value in rows
    ensures IsChain(Saved(rows, id, row), s, path + [id])
  {
    var longer := path + [id];
    if path != [] {
      assert LinkedAt(rows, path, |path| - 1);
      assert path[|path| - 1] in path;
    }
    var after := Saved(rows, id, row);
    assert id !in path;
    forall i: nat | i < |longer| ensures LinkedAt(after, longer, i) {
      if i < |path| {
        assert LinkedAt(rows, path, i) && path[i] in path;
        assert i < |path| - 1 ==> path[i] != path[|path| - 1];
      }
    }
    forall x ensures x in longer <==> x in after && InSlot(after[x], s) {
      assert x in longer <==> x in path || x == id;
    }
  }

  /** And leaves every other chain alone. */
  lemma SaveKeepsOtherChains(rows: Rows, id: Id, row: Row, s: Slot, path: seq<Id>)
    requires IsChain(rows, s, path) && id !in rows && !InSlot(row, s)
    requires row.supersedes.Some? ==> row.supersedes.value in rows && !InSlot(rows[row.supersedes.value], s)
    ensures IsChain(Saved(rows, id, row), s, path)
  {
    var after := Saved(rows, id, row);
    forall i: nat | i < |path| ensures LinkedAt(after, path, i) {
      assert LinkedAt(rows, path, i) && path[i] in path;
    }
  }

  // ----- Canonical text -----

  /** `_canonical_json` on both payloads; the media checkpoints' own allows NaN. */
  function Framed(c: Codec, cp: Checkpoint, nan: bool): Option<Fields> {
    match (Dump(cp.cursor, nan), Dump(cp.counters, nan))
    case (Some(cursor), Some(counters)) =>
      Some(Fields(cp.fingerprint, cp.stage, cp.version, cp.toolName, cp.toolVersion, c.write(cursor),
        c.write(counters), cp.blob))
    case _ => None
  }

  /** `_record_from_row`, which parses the two JSON columns. */
  function Record(c: Codec, f: Fields): Option<Checkpoint> {
    match (c.read(f.cursor), c.read(f.counters))
    case (Some(Object(cursor)), Some(Object(counters))) =>
      Some(Checkpoint(f.fingerprint, f.stage, f.version, f.toolName, f.toolVersion, Object(cursor),
        Object(counters), f.blob))
    case _ => None
  }

  /** The fields that a load digests: stored text, parsed and dumped again. */
  function Reframed(c: Codec, f: Fields, nan: bool): Option<Fields> {
    match Record(c, f)
    case None => None
    case Some(cp) => Framed(c, cp, nan)
  }

  /** json.loads gives back this document from its text, and no other document has that text. */
  ghost predicate TextStands(c: Codec, document: Json) {
    c.read(c.write(document)) == Some(document) && forall e :: c.write(e) == c.write(document) ==> e == document
  }

  /** The payloads are dictionaries, and their texts stand. */
  ghost predicate PayloadsStand(c: Codec, cp: Checkpoint, nan: bool) {
    && cp.cursor.Object? && cp.counters.Object?
    && Dump(cp.cursor, nan).Some? && Dump(cp.counters, nan).Some?
    && TextStands(c, Dump(cp.cursor, nan).value) && TextStands(c, Dump(cp.counters, nan).value)
  }

  /** In no dictionary of the payloads two integer keys change places as text. */
  predicate PayloadsKeepOrder(cp: Checkpoint) {
    KeysKeepOrder(cp.cursor) && KeysKeepOrder(cp.counters)
  }

  /** Parsing and dumping leaves the saved text alone exactly for payloads that keep their keys' order. */
  lemma ReframedIsSameIff(c: Codec, cp: Checkpoint, nan: bool)
    requires PayloadsStand(c, cp, nan)
    ensures Framed(c, cp, nan).Some? && Record(c, Framed(c, cp, nan).value).Some?
    ensures Reframed(c, Framed(c, cp, nan).value, nan).Some?
    ensures Reframed(c, Framed(c, cp, nan).value, nan) == Framed(c, cp, nan) <==> PayloadsKeepOrder(cp)
  {
    RedumpIff(cp.cursor, nan);
    RedumpIff(cp.counters, nan);
  }

  // ----- Loading -----

  datatype LoadError =
    | NoCheckpoint | Malformed | UnsupportedVersion | FingerprintMismatch | ToolMismatch | NotCanonical
    | IntegrityMismatch | InvalidMedium | MediumMismatch

  /** The end of both loads. */
  function CheckIntegrity(c: Codec, row: Row, cp: Checkpoint, nan: bool): (r: Result<Checkpoint, LoadError>) {
    match Framed(c, cp, nan)
    case None => Err(NotCanonical)
    case Some(f) => if Integrity(c, f) != row.digest then Err(IntegrityMismatch) else Ok(cp)
  }

  /** The column holds a JSON object. */
  predicate HoldsObject(c: Codec, text: string) {
    c.read(text).Some? && c.read(text).value.Object?
  }

  /** The row's stored text, parsed and dumped again, has the digest that the row carries. */
  ghost predicate DigestHolds(c: Codec, row: Row, nan: bool) {
    Reframed(c, row.fields, nan).Some? && Integrity(c, Reframed(c, row.fields, nan).value) == row.digest
  }

  /** The checkpoint that a load makes of these fields. */
  ghost predicate IsReadFrom(c: Codec, f: Fields, cp: Checkpoint) {
    && cp.fingerprint == f.fingerprint && cp.stage == f.stage && cp.version == f.version
    && cp.toolName == f.toolName && cp.toolVersion == f.toolVersion && cp.blob == f.blob
    && c.read(f.cursor) == Some(cp.cursor) && c.read(f.counters) == Some(cp.counters)
  }

  /** The checks of `load_latest_checkpoint` on the row it selected. */
  function Accept(c: Codec, row: Row, fingerprint: string, toolName: string, toolVersion: string)
    : (r: Result<Checkpoint, LoadError>)
  {
    match Record(c, row.fields)
    case None => Err(Malformed)
    case Some(cp) =>
      if cp.version != SUPPORTED_CHECKPOINT_VERSION then Err(UnsupportedVersion)
      else if cp.fingerprint != fingerprint then Err(FingerprintMismatch)
      else if cp.toolName != toolName || cp.toolVersion != toolVersion then Err(ToolMismatch)
      else CheckIntegrity(c, row, cp, false)
  }

  /** The text of a medium identity that a row stores beside its key. */
  function MediumText(c: Codec, identity: Json): Option<string> {
    match Dump(identity, true)
    case None => None
    case Some(document) => Some(c.write(document))
  }

  /** The key of a stored identity. */
  function KeyOfText(c: Codec, text: string): Option<string> {
    match c.read(text)
    case None => None
    case Some(identity) => c.mediumKey(identity)
  }

  /** The checks of `load_medium_checkpoint`; `key` is the key of the medium in the reader. */
  function AcceptMedium(c: Codec, row: Row, key: string, toolName: string, toolVersion: string)
    : (r: Result<Checkpoint, LoadError>)
  {
    match Record(c, row.fields)
    case None => Err(Malformed)
    case Some(cp) =>
      if row.medium.None? || KeyOfText(c, row.medium.value) != Some(key) then Err(MediumMismatch)
      else if cp.version != SUPPORTED_CHECKPOINT_VERSION then Err(UnsupportedVersion)
      else if cp.toolName != toolName || cp.toolVersion != toolVersion then Err(ToolMismatch)
      else CheckIntegrity(c, row, cp, true)
  }

  lemma AcceptsExactly(c: Codec, row: Row, fingerprint: string, toolName: string, toolVersion: string)
    ensures var r, f := Accept(c, row, fingerprint, toolName, toolVersion), row.fields;
      var readable := HoldsObject(c, f.cursor) && HoldsObject(c, f.counters);
      && (r == Err(Malformed) <==> !readable)
      && (r == Err(UnsupportedVersion) <==> readable && f.version != 1)
      && (r == Err(FingerprintMismatch) <==> readable && f.version == 1 && f.fingerprint != fingerprint)
      && (r == Err(ToolMismatch) <==>
          readable && f.version == 1 && f.fingerprint == fingerprint
          && (f.toolName != toolName || f.toolVersion != toolVersion))
      && (r.Ok? <==>
          readable && f.version == 1 && f.fingerprint == fingerprint && f.toolName == toolName
          && f.toolVersion == toolVersion && DigestHolds(c, row, false))
      && (r == Err(NotCanonical) ==> Reframed(c, f, false) == None)
      && (r == Err(IntegrityMismatch) ==> Reframed(c, f, false).Some? && !DigestHolds(c, row, false))
      && (r.Ok? ==> IsReadFrom(c, f, r.value))
  {
    RecordIsReadFrom(c, row.fields);
  }

  lemma RecordIsReadFrom(c: Codec, f: Fields)
    ensures Record(c, f).Some? <==> HoldsObject(c, f.cursor) && HoldsObject(c, f.counters)
    ensures Record(c, f).Some? ==> IsReadFrom(c, f, Record(c, f).value)
  {
  }

  lemma AcceptsMediumExactly(c: Codec, row: Row, key: string, toolName: string, toolVersion: string)
    ensures var r, f := AcceptMedium(c, row, key, toolName, toolVersion), row.fields;
      var readable := HoldsObject(c, f.cursor) && HoldsObject(c, f.counters);
      var same := row.medium.Some? && c.read(row.medium.value).Some?
        && c.mediumKey(c.read(row.medium.value).value) == Some(key);
      && (r == Err(Malformed) <==> !readable)
      && (r == Err(MediumMismatch) <==> readable && !same)
      && (r == Err(UnsupportedVersion) <==> readable && same && f.version != 1)
      && (r == Err(ToolMismatch) <==>
          readable && same && f.version == 1 && (f.toolName != toolName || f.toolVersion != toolVersion))
      && (r.Ok? <==>
          readable && same && f.version == 1 && f.toolName == toolName && f.toolVersion == toolVersion
          && DigestHolds(c, row, true))
      && (r == Err(NotCanonical) ==> Reframed(c, f, true) == None)
      && (r == Err(IntegrityMismatch) ==> Reframed(c, f, true).Some? && !DigestHolds(c, row, true))
      && (r.Ok? ==> IsReadFrom(c, f, r.value))
  {
    RecordIsReadFrom(c, row.fields);
  }

  /**
    * However a row was altered since, as long as it carries the digest of the fields that were
    * saved, a load gives back a checkpoint with exactly those fields, or none.
    */
  lemma OnlySavedFieldsAreAccepted(
    c: Codec, saved: Fields, row: Row, fingerprint: string, key: string, toolName: string, toolVersion: string)
    requires InjectiveCodec(c) && FieldsFramable(c, saved) && row.digest == Integrity(c, saved)
    requires forall nan :: LoadFramable(c, row.fields, nan)
    ensures Accept(c, row, fingerprint, toolName, toolVersion).Ok? ==>
      Framed(c, Accept(c, row, fingerprint, toolName, toolVersion).value, false) == Some(saved)
    ensures AcceptMedium(c, row, key, toolName, toolVersion).Ok? ==>
      Framed(c, AcceptMedium(c, row, key, toolName, toolVersion).value, true) == Some(saved)
  {
    if Record(c, row.fields).Some? {
      IntegrityAcceptsSaved(c, saved, row, false);
      IntegrityAcceptsSaved(c, saved, row, true);
    }
  }

  /** What a load digests is short enough to be framed. */
  ghost predicate LoadFramable(c: Codec, f: Fields, nan: bool) {
    Reframed(c, f, nan).Some? ==> FieldsFramable(c, Reframed(c, f, nan).value)
  }

  lemma IntegrityAcceptsSaved(c: Codec, saved: Fields, row: Row, nan: bool)
    requires InjectiveCodec(c) && FieldsFramable(c, saved) && row.digest == Integrity(c, saved)
    requires Record(c, row.fields).Some? && LoadFramable(c, row.fields, nan)
    ensures var cp := Record(c, row.fields).value;
      CheckIntegrity(c, row, cp, nan) ==
        if Framed(c, cp, nan) == Some(saved) then Ok(cp)
        else if Framed(c, cp, nan) == None then Err(NotCanonical) else Err(IntegrityMismatch)
  {
    var again := Reframed(c, row.fields, nan);
    if again.Some? && Integrity(c, again.value) == row.digest {
      IntegrityFixesFields(c, again.value, saved);
    }
  }

  // ----- Saving -----

  datatype SaveError = InvalidInput | InvalidPayload | UnknownJob | DuplicateId | InjectedFailure

  predicate IsHexDigit(ch: char) {
    '0' <= ch <= '9' || 'a' <= ch <= 'f'
  }

  /** `SHA256_RE`. */
  predicate IsDigestText(s: string) {
    |s| == 64 && forall i :: 0 <= i < |s| ==> IsHexDigit(s[i])
  }

  predicate IsCheckpointText(s: string) {
    0 < |s| <= MAX_CHECKPOINT_TEXT && forall i :: 0 <= i < |s| ==> s[i] != '\0'
  }

  /** `_validate_checkpoint_inputs`. */
  predicate ValidInputs(f: Checkpoint) {
    && IsDigestText(f.fingerprint) && f.version > 0
    && IsCheckpointText(f.stage) && IsCheckpointText(f.toolName) && IsCheckpointText(f.toolVersion)
  }

  lemma ValidInputsMean(cp: Checkpoint)
    ensures ValidInputs(cp) <==>
      && |cp.fingerprint| == 64 && (forall ch :: ch in cp.fingerprint ==> '0' <= ch <= '9' || 'a' <= ch <= 'f')
      && cp.version > 0
      && (forall text :: text in {cp.stage, cp.toolName, cp.toolVersion} ==> 0 < |text| <= 128 && '\0' !in text)
  {
    DigestTextMeans(cp.fingerprint);
    CheckpointTextMeans(cp.stage);
    CheckpointTextMeans(cp.toolName);
    CheckpointTextMeans(cp.toolVersion);
  }

  lemma DigestTextMeans(s: string)
    ensures IsDigestText(s) <==> |s| == 64 && forall ch :: ch in s ==> '0' <= ch <= '9' || 'a' <= ch <= 'f'
  {
    forall i | 0 <= i < |s| ensures s[i] in s {
    }
  }

  lemma CheckpointTextMeans(s: string)
    ensures IsCheckpointText(s) <==> 0 < |s| <= 128 && '\0' !in s
  {
  }

  /** The row a save of these fields commits, behind `previous`. */
  function NewRow(c: Codec, job: nat, f: Fields, medium: Option<string>, previous: Option<Id>, createdAt: int): Row {
    Row(job, f, medium, Integrity(c, f), previous, None, createdAt)
  }

  function LastOf(path: seq<Id>): Option<Id> {
    if path == [] then None else Some(path[|path| - 1])
  }

  /** Every slot's committed saves, oldest first. */
  type History = Slot -> seq<Id>

  ghost function Extended(history: History, s: Slot, id: Id): History {
    t => if t == s then history(s) + [id] else history(t)
  }

  /** A medium row holds the key of an identity and, as text, that identity. */
  ghost predicate SavedFor(c: Codec, text: string, key: string, identity: Json) {
    MediumText(c, identity) == Some(text) && c.mediumKey(identity) == Some(key)
  }

  /** A row as its save wrote it: the digest is its fields' own, the medium's text and key belong together. */
  ghost predicate Untampered(c: Codec, row: Row) {
    && row.digest == Integrity(c, row.fields)
    && (row.medium.Some? ==> exists identity :: SavedFor(c, row.medium.value, row.fields.fingerprint, identity))
  }

  /** Every slot's saves form its chain, and no row was tampered with. */
  ghost predicate Consistent(c: Codec, rows: Rows, history: History) {
    && (forall s :: IsChain(rows, s, history(s)))
    && (forall id :: id in rows ==> Untampered(c, rows[id]))
  }

  lemma SaveKeepsStore(c: Codec, rows: Rows, history: History, slot: Slot, id: Id, row: Row)
    requires Consistent(c, rows, history)
    requires id !in rows && InSlot(row, slot) && row.supersededBy.None? && row.supersedes == LastOf(history(slot))
    requires Untampered(c, row)
    requires row.supersedes.Some? ==> row.supersedes.value in rows && InSlot(rows[row.supersedes.value], slot)
    ensures Consistent(c, Saved(rows, id, row), Extended(history, slot, id))
  {
    var after, longer := Saved(rows, id, row), Extended(history, slot, id);
    forall s ensures IsChain(after, s, longer(s)) {
      assert IsChain(rows, s, history(s));
      if s == slot {
        SaveExtendsChain(rows, id, row, slot, history(slot));
      } else {
        SaveKeepsOtherChains(rows, id, row, s, history(s));
      }
    }
    forall x | x in after ensures Untampered(c, after[x]) {
      assert x == id || x in rows;
      assert x != id ==> Untampered(c, rows[x]);
    }
  }

  /** The checkpoints table, shared by the scanner's and the media checkpoints. */
  class CheckpointStore {
    const codec: Codec
    const jobs: set<nat>
    var rows: Rows
    ghost var history: History

    ghost predicate Valid()
      reads this
    {
      Consistent(codec, rows, history)
    }

    constructor (codec: Codec, jobs: set<nat>)
      ensures Valid() && rows == map[] && this.codec == codec && this.jobs == jobs
      ensures forall s :: history(s) == []
    {
      this.codec, this.jobs := codec, jobs;
      rows, history := map[], _ => [];
    }

    /**
      * The transaction of both saves: committed, it extends the chain of its slot; failed, it
      * leaves the table as it was.
      */
    method Commit(id: Id, job: nat, f: Fields, medium: Option<string>, createdAt: int, injectFailure: bool)
      returns (r: Result<(), SaveError>)
      requires Valid()
      requires medium.Some? ==> exists identity :: SavedFor(codec, medium.value, f.fingerprint, identity)
      modifies this
      ensures Valid()
      ensures r.Ok? <==> id !in old(rows) && job in jobs && !injectFailure
      ensures r.Err? ==> rows == old(rows) && history == old(history)
      ensures r.Ok? ==>
        && history == Extended(old(history), Slot(job, f.stage), id)
        && id in rows
        && rows[id] ==
          Row(job, f, medium, Integrity(codec, f), LastOf(old(history)(Slot(job, f.stage))), None, createdAt)
        && rows.Keys == old(rows).Keys + {id}
    {
      var begun := rows;
      var slot := Slot(job, f.stage);
      var previous := LatestCheckpointId(rows, slot);
      ghost var path := history(slot);
      PreviousIsLast(rows, slot, path, previous);
      var row := NewRow(codec, job, f, medium, previous, createdAt);
      if id in rows {
        return Err(DuplicateId);
      }
      if job !in jobs {
        return Err(UnknownJob);
      }
      rows := rows[id := row];
      if injectFailure {
        rows := begun;
        return Err(InjectedFailure);
      }
      SaveKeepsStore(codec, begun, history, slot, id, row);
      if previous.Some? {
        rows := rows[previous.value := rows[previous.value].(supersededBy := Some(id))];
      }
      SavedRow(begun, id, row);
      assert rows == Saved(begun, id, row);
      history := Extended(history, slot, id);
      r := Ok(());
    }

    /** `save_checkpoint`. */
    method Save(id: Id, job: nat, cp: Checkpoint, createdAt: int, injectFailure: bool)
      returns (r: Result<(), SaveError>)
      requires Valid()
      modifies this
      ensures Valid()
      ensures r.Ok? <==>
        && |cp.fingerprint| == 64 && (forall ch :: ch in cp.fingerprint ==> '0' <= ch <= '9' || 'a' <= ch <= 'f')
        && cp.version > 0
        && (forall text :: text in {cp.stage, cp.toolName, cp.toolVersion} ==> 0 < |text| <= 128 && '\0' !in text)
        && Dump(cp.cursor, false).Some? && Dump(cp.counters, false).Some?
        && id !in old(rows) && job in jobs && !injectFailure
      ensures r.Err? ==> rows == old(rows) && history == old(history)
      ensures r.Ok? ==>
        && history == Extended(old(history), Slot(job, cp.stage), id)
        && id in rows && Some(rows[id].fields) == Framed(codec, cp, false) && rows[id].medium.None?
        && rows[id].fields == Fields(cp.fingerprint, cp.stage, cp.version, cp.toolName, cp.toolVersion,
          codec.write(Dump(cp.cursor, false).value), codec.write(Dump(cp.counters, false).value), cp.blob)
    {
      ValidInputsMean(cp);
      if !ValidInputs(cp) {
        return Err(InvalidInput);
      }
      match Framed(codec, cp, false)
      case None => r := Err(InvalidPayload);
      case Some(f) => r := Commit(id, job, f, None, createdAt, injectFailure);
    }

    /** `save_medium_checkpoint`: the medium's key stands where the fingerprint does. */
    method SaveMedium(id: Id, job: nat, cp: Checkpoint, identity: Json, createdAt: int)
      returns (r: Result<(), SaveError>)
      requires Valid()
      modifies this
      ensures Valid()
      ensures r.Ok? <==>
        && codec.mediumKey(identity).Some? && Dump(identity, true).Some?
        && Dump(cp.cursor, true).Some? && Dump(cp.counters, true).Some?
        && id !in old(rows) && job in jobs
      ensures r.Err? ==> rows == old(rows) && history == old(history)
      ensures r.Ok? ==>
        && history == Extended(old(history), Slot(job, cp.stage), id)
        && id in rows && rows[id].medium == MediumText(codec, identity)
        && rows[id].medium == Some(codec.write(Dump(identity, true).value))
        && Some(rows[id].fields) == Framed(codec, Bound(cp, codec.mediumKey(identity).value), true)
        && rows[id].fields == Fields(codec.mediumKey(identity).value, cp.stage, 1, cp.toolName, cp.toolVersion,
          codec.write(Dump(cp.cursor, true).value), codec.write(Dump(cp.counters, true).value), cp.blob)
    {
      var key := codec.mediumKey(identity);
      if key.None? {
        return Err(InvalidInput);
      }
      var text := MediumText(codec, identity);
      if text.None? {
        return Err(InvalidPayload);
      }
      match Framed(codec, Bound(cp, key.value), true)
      case None => r := Err(InvalidPayload);
      case Some(f) =>
        assert SavedFor(codec, text.value, f.fingerprint, identity);
        r := Commit(id, job, f, text, createdAt, false);
    }

    /** `load_latest_checkpoint` judges the last save of the slot, whatever the rows' `created_at`. */
    method Load(slot: Slot, fingerprint: string, toolName: string, toolVersion: string)
      returns (r: Result<Checkpoint, LoadError>)
      requires Valid()
      ensures LastOf(history(slot)).None? ==> r == Err(NoCheckpoint)
      ensures LastOf(history(slot)).Some? ==> LastOf(history(slot)).value in rows
      ensures LastOf(history(slot)).Some? ==>
        r == Accept(codec, rows[LastOf(history(slot)).value], fingerprint, toolName, toolVersion)
      ensures history(slot) != [] ==>
        var row := rows[history(slot)[|history(slot)| - 1]];
        var f := row.fields;
        var readable := HoldsObject(codec, f.cursor) && HoldsObject(codec, f.counters);
        && (r == Err(Malformed) <==> !readable)
        && (r == Err(UnsupportedVersion) <==> readable && f.version != 1)
        && (r == Err(FingerprintMismatch) <==> readable && f.version == 1 && f.fingerprint != fingerprint)
        && (r == Err(ToolMismatch) <==>
            readable && f.version == 1 && f.fingerprint == fingerprint
            && (f.toolName != toolName || f.toolVersion != toolVersion))
        && (r.Ok? <==>
            readable && f.version == 1 && f.fingerprint == fingerprint && f.toolName == toolName
            && f.toolVersion == toolVersion && DigestHolds(codec, row, false))
        && (r == Err(NotCanonical) ==> Reframed(codec, f, false) == None)
        && (r == Err(IntegrityMismatch) ==> Reframed(codec, f, false).Some? && !DigestHolds(codec, row, false))
        && (r.Ok? ==> IsReadFrom(codec, f, r.value) && r.value.stage == slot.stage && row.job == slot.job)
    {
      var latest := LatestCheckpointId(rows, slot);
      PreviousIsLast(rows, slot, history(slot), latest);
      if latest.Some? {
        AcceptsExactly(codec, rows[latest.value], fingerprint, toolName, toolVersion);
      }
      r := match latest
        case None => Err(NoCheckpoint)
        case Some(id) => Accept(codec, rows[id], fingerprint, toolName, toolVersion);
    }

    /**
      * `load_medium_checkpoint`: no checkpoint is no error, but a checkpoint is resumed only if
      * the identity stored with it reads back to the key of the medium in the reader, and never
      * from a row without a medium.
      */
    method LoadMedium(slot: Slot, identity: Json, toolName: string, toolVersion: string)
      returns (r: Result<Option<Checkpoint>, LoadError>)
      requires Valid()
      ensures codec.mediumKey(identity).None? ==> r == Err(InvalidMedium)
      ensures r == Ok(None) <==> codec.mediumKey(identity).Some? && history(slot) == []
      ensures LastOf(history(slot)).Some? ==> LastOf(history(slot)).value in rows
      ensures codec.mediumKey(identity).Some? && history(slot) != [] ==>
        r == Found(AcceptMedium(codec, rows[LastOf(history(slot)).value], codec.mediumKey(identity).value, toolName,
          toolVersion))
      ensures r.Ok? && r.value.Some? ==> ResumesFor(codec, rows[LastOf(history(slot)).value], identity)
      ensures codec.mediumKey(identity).Some? && history(slot) != [] ==>
        var row := rows[history(slot)[|history(slot)| - 1]];
        var f := row.fields;
        var readable := HoldsObject(codec, f.cursor) && HoldsObject(codec, f.counters);
        var same := row.medium.Some? && codec.read(row.medium.value).Some?
          && codec.mediumKey(codec.read(row.medium.value).value) == codec.mediumKey(identity);
        && (r == Err(Malformed) <==> !readable)
        && (r == Err(MediumMismatch) <==> readable && !same)
        && (r == Err(UnsupportedVersion) <==> readable && same && f.version != 1)
        && (r == Err(ToolMismatch) <==>
            readable && same && f.version == 1 && (f.toolName != toolName || f.toolVersion != toolVersion))
        && (r.Ok? <==>
            readable && same && f.version == 1 && f.toolName == toolName && f.toolVersion == toolVersion
            && DigestHolds(codec, row, true))
        && (r == Err(NotCanonical) ==> Reframed(codec, f, true) == None)
        && (r == Err(IntegrityMismatch) ==> Reframed(codec, f, true).Some? && !DigestHolds(codec, row, true))
        && (r.Ok? ==> r.value.Some? && IsReadFrom(codec, f, r.value.value) && r.value.value.stage == slot.stage)
    {
      var latest := LatestCheckpointId(rows, slot);
      PreviousIsLast(rows, slot, history(slot), latest);
      var key := codec.mediumKey(identity);
      if key.None? {
        return Err(InvalidMedium);
      }
      if latest.Some? {
        AcceptsMediumExactly(codec, rows[latest.value], key.value, toolName, toolVersion);
      }
      r := match latest
        case None => Ok(None)
        case Some(id) => Found(AcceptMedium(codec, rows[id], key.value, toolName, toolVersion));
    }
  }

  /** A medium checkpoint is saved under the medium's key and always with version 1. */
  function Bound(cp: Checkpoint, key: string): Checkpoint {
    cp.(fingerprint := key, version := SUPPORTED_CHECKPOINT_VERSION)
  }

  /** The row was saved for a medium whose stored identity reads back to the key of this one. */
  ghost predicate ResumesFor(c: Codec, row: Row, identity: Json) {
    && row.medium.Some?
    && (exists saved :: SavedFor(c, row.medium.value, row.fields.fingerprint, saved))
    && KeyOfText(c, row.medium.value) == c.mediumKey(identity)
  }

  /** A loaded checkpoint, where none might have been found. */
  function Found(r: Result<Checkpoint, LoadError>): Result<Option<Checkpoint>, LoadError> {
    match r
    case Err(e) => Err(e)
    case Ok(cp) => Ok(Some(cp))
  }

  /** The SELECT finds the last save: `created_at` has nothing left to order. */
  lemma PreviousIsLast(rows: Rows, s: Slot, path: seq<Id>, found: Option<Id>)
    requires IsChain(rows, s, path)
    requires found.None? ==> forall id :: !Current(rows, s, id)
    requires found.Some? ==> Current(rows, s, found.value)
    ensures found == LastOf(path)
    ensures found.Some? ==> found.value in rows && InSlot(rows[found.value], s)
  {
    if path != [] {
      OnlyTheLastIsCurrent(rows, s, path, path[|path| - 1]);
    }
    if found.Some? {
      OnlyTheLastIsCurrent(rows, s, path, found.value);
    }
  }

  /** What a load of untampered fields with the right version, fingerprint and tool comes to. */
  function Reloaded(c: Codec, f: Fields, nan: bool): (r: Result<Checkpoint, LoadError>)
    ensures r.Ok? <==> Reframed(c, f, nan) == Some(f)
  {
    match Record(c, f)
    case None => Err(Malformed)
    case Some(cp) =>
      if Reframed(c, f, nan) == Some(f) then Ok(cp)
      else if Reframed(c, f, nan) == None then Err(NotCanonical) else Err(IntegrityMismatch)
  }

  /** The preconditions that both pairs share: a save that will be committed, and framable text. */
  ghost predicate WillBeSaved(store: CheckpointStore, id: Id, job: nat, cp: Checkpoint, nan: bool)
    reads store
  {
    && store.Valid() && InjectiveCodec(store.codec) && id !in store.rows && job in store.jobs
    && Framed(store.codec, cp, nan).Some?
    && FieldsFramable(store.codec, Framed(store.codec, cp, nan).value)
    && LoadFramable(store.codec, Framed(store.codec, cp, nan).value, nan)
  }

  lemma LoadOfOwnRow(c: Codec, row: Row, cp: Checkpoint)
    requires InjectiveCodec(c) && Framed(c, cp, false) == Some(row.fields) && Untampered(c, row)
    requires FieldsFramable(c, row.fields) && LoadFramable(c, row.fields, false)
    ensures Accept(c, row, cp.fingerprint, cp.toolName, cp.toolVersion) ==
      if Record(c, row.fields).Some? && cp.version != SUPPORTED_CHECKPOINT_VERSION then Err(UnsupportedVersion)
      else Reloaded(c, row.fields, false)
  {
    if Record(c, row.fields).Some? {
      IntegrityAcceptsSaved(c, row.fields, row, false);
    }
  }

  lemma LoadOfOwnMediumRow(c: Codec, row: Row, cp: Checkpoint, key: string)
    requires InjectiveCodec(c) && Framed(c, cp, true) == Some(row.fields) && Untampered(c, row)
    requires FieldsFramable(c, row.fields) && LoadFramable(c, row.fields, true)
    requires row.medium.Some? && cp.version == SUPPORTED_CHECKPOINT_VERSION
    ensures AcceptMedium(c, row, key, cp.toolName, cp.toolVersion) ==
      if Record(c, row.fields).Some? && KeyOfText(c, row.medium.value) != Some(key) then Err(MediumMismatch)
      else Reloaded(c, row.fields, true)
  {
    if Record(c, row.fields).Some? {
      IntegrityAcceptsSaved(c, row.fields, row, true);
    }
  }

  /**
    * A checkpoint just saved is accepted by a load if and only if its version is the supported
    * one (a save accepts any positive version) and parsing and dumping leaves its text alone; for
    * payloads that JSON text can hold, that is, if no two integer keys change places as text.
    */
  method SaveThenLoad(store: CheckpointStore, id: Id, job: nat, cp: Checkpoint, createdAt: int)
    returns (r: Result<Checkpoint, LoadError>)
    requires WillBeSaved(store, id, job, cp, false) && ValidInputs(cp)
    modifies store
    ensures store.Valid() && store.history(Slot(job, cp.stage)) == old(store.history)(Slot(job, cp.stage)) + [id]
    ensures var f := Framed(store.codec, cp, false).value;
      && (r.Ok? <==> cp.version == SUPPORTED_CHECKPOINT_VERSION && Reframed(store.codec, f, false) == Some(f))
      && r == (
        if Record(store.codec, f).Some? && cp.version != SUPPORTED_CHECKPOINT_VERSION then Err(UnsupportedVersion)
        else Reloaded(store.codec, f, false))
    ensures PayloadsStand(store.codec, cp, false) ==>
      (r.Ok? <==> cp.version == SUPPORTED_CHECKPOINT_VERSION && PayloadsKeepOrder(cp))
  {
    var saved := store.Save(id, job, cp, createdAt, false);
    assert Untampered(store.codec, store.rows[id]);
    LoadOfOwnRow(store.codec, store.rows[id], cp);
    r := store.Load(Slot(job, cp.stage), cp.fingerprint, cp.toolName, cp.toolVersion);
    if PayloadsStand(store.codec, cp, false) {
      ReframedIsSameIff(store.codec, cp, false);
    }
  }

  /**
    * A medium checkpoint just saved is resumed if and only if the stored identity reads back to
    * the key of the medium in the reader and parsing and dumping leaves its text alone.
    */
  method SaveThenLoadMedium(
    store: CheckpointStore, id: Id, job: nat, cp: Checkpoint, identity: Json, inserted: Json, createdAt: int)
    returns (r: Result<Option<Checkpoint>, LoadError>)
    requires store.codec.mediumKey(identity).Some? && store.codec.mediumKey(inserted).Some?
    requires MediumText(store.codec, identity).Some?
    requires WillBeSaved(store, id, job, Bound(cp, store.codec.mediumKey(identity).value), true)
    modifies store
    ensures store.Valid() && store.history(Slot(job, cp.stage)) == old(store.history)(Slot(job, cp.stage)) + [id]
    ensures var c := store.codec;
      var f := Framed(c, Bound(cp, c.mediumKey(identity).value), true).value;
      var sameKey := KeyOfText(c, MediumText(c, identity).value) == c.mediumKey(inserted);
      && (r.Ok? <==> sameKey && Reframed(c, f, true) == Some(f))
      && r == (if Record(c, f).Some? && !sameKey then Err(MediumMismatch) else Found(Reloaded(c, f, true)))
      && (PayloadsStand(c, cp, true) ==> (r.Ok? <==> sameKey && PayloadsKeepOrder(cp)))
  {
    ghost var bound := Bound(cp, store.codec.mediumKey(identity).value);
    var saved := store.SaveMedium(id, job, cp, identity, createdAt);
    assert Untampered(store.codec, store.rows[id]);
    LoadOfOwnMediumRow(store.codec, store.rows[id], bound, store.codec.mediumKey(inserted).value);
    r := store.LoadMedium(Slot(job, cp.stage), inserted, cp.toolName, cp.toolVersion);
    if PayloadsStand(store.codec, cp, true) {
      ReframedIsSameIff(store.codec, bound, true);
    }
  }
}
