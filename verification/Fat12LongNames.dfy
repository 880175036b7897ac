/**
 Long file names: thirteen UTF-16 units to a directory entry, last part first
 (section "FAT Long Directory Entries" of Microsoft's "FAT: General Overview of On-Disk Format" v1.03).
 */
module Fat12LongNames {
  import opened Collections
  import opened Wrappers
  import opened Bytes
  import opened Fat12Table

  type Unit = u: nat | u < 0x10000

  /** A directory entry of 32 bytes. */
  type Raw = r: seq<Byte> | |r| == 32 witness seq(32, _ => 0)

  // ----- One entry -----

  /** The units of one part, ended by a zero and padded with 0xFFFF when it is short. */
  function Slots(part: seq<Unit>): (slots: seq<Unit>)
    requires |part| <= 13
    ensures |slots| == 13
  {
    part + Filler(13 - |part|)
  }

  /** What follows a part of fewer than thirteen units. */
  function Filler(n: nat): (filler: seq<Unit>)
    ensures |filler| == n
    ensures forall i :: 0 <= i < n ==> filler[i] == if i == 0 then 0 else 0xFFFF
  {
    seq(n, i => if i == 0 then 0 else 0xFFFF)
  }

  /** The offset of a unit in its entry: five, six and two of them, around the other fields. */
  function UnitOffset(i: nat): nat {
    if i < 5 then 1 + 2 * i else if i < 11 then 14 + 2 * (i - 5) else 28 + 2 * (i - 11)
  }

  /** The unit that a byte of the entry belongs to. */
  function UnitIndex(j: nat): nat
    requires 1 <= j < 11 || 14 <= j < 26 || 28 <= j < 32
  {
    if j < 11 then (j - 1) / 2 else if j < 26 then 5 + (j - 14) / 2 else 11 + (j - 28) / 2
  }

  function EntryByte(order: Byte, slots: seq<Unit>, checksum: Byte, j: nat): Byte
    requires |slots| == 13 && j < 32
  {
    if j == 0 then order
    else if j == 11 then 0x0F
    else if j == 13 then checksum
    else if j == 12 || j == 26 || j == 27 then 0
    else
      var unit := slots[UnitIndex(j)];
      if (j < 11 && j % 2 == 1) || (j > 11 && j % 2 == 0) then unit % 256 else unit / 256
  }

  function MakeEntry(order: Byte, part: seq<Unit>, checksum: Byte): Raw
    requires |part| <= 13
  {
    seq(32, j requires 0 <= j < 32 => EntryByte(order, Slots(part), checksum, j))
  }

  /** `units_raw`, unpacked. */
  function UnitsOf(raw: Raw): (units: seq<Unit>)
    ensures |units| == 13
  {
    seq(13, i requires 0 <= i < 13 => Word(raw[UnitOffset(i)], raw[UnitOffset(i) + 1]))
  }

  /** The fields of an entry for one part. */
  ghost predicate IsEntry(raw: Raw, order: nat, part: seq<Unit>, checksum: Byte)
    requires |part| <= 13
  {
    && raw[0] == order && raw[11] == 0x0F && raw[12] == 0 && raw[13] == checksum && raw[26] == 0 && raw[27] == 0
    && UnitsOf(raw) == Slots(part)
  }

  lemma UnitsOfEntry(order: Byte, part: seq<Unit>, checksum: Byte)
    requires |part| <= 13
    ensures IsEntry(MakeEntry(order, part, checksum), order, part, checksum)
  {
    var raw := MakeEntry(order, part, checksum);
    forall i | 0 <= i < 13 ensures UnitsOf(raw)[i] == Slots(part)[i] {
      UnitOfEntry(order, Slots(part), checksum, i);
    }
  }

  /** The two bytes at a unit's offset are that unit's. */
  lemma UnitOfEntry(order: Byte, slots: seq<Unit>, checksum: Byte, i: nat)
    requires |slots| == 13 && i < 13
    ensures
      var j := UnitOffset(i);
      Word(EntryByte(order, slots, checksum, j), EntryByte(order, slots, checksum, j + 1)) == slots[i]
  {
    var j := UnitOffset(i);
    assert UnitIndex(j) == i && UnitIndex(j + 1) == i;
  }

  // ----- _lfn_entries -----

  /** The name cut into parts of thirteen units; the last part may be shorter. */
  function Parts(name: seq<Unit>): (parts: seq<seq<Unit>>)
    ensures forall k :: 0 <= k < |parts| ==> 0 < |parts[k]| <= 13
  {
    if name == [] then []
    else if |name| <= 13 then [name]
    else [name[..13]] + Parts(name[13..])
  }

  lemma {:induction false} FlattenCons(part: seq<Unit>, rest: seq<seq<Unit>>)
    ensures Flatten([part] + rest) == part + Flatten(rest)
    decreases |rest|
  {
    var all := [part] + rest;
    if rest == [] {
      assert all[..|all| - 1] == [];
    } else {
      assert all[..|all| - 1] == [part] + rest[..|rest| - 1];
      FlattenCons(part, rest[..|rest| - 1]);
    }
  }

  lemma {:induction false} PartsMakeTheName(name: seq<Unit>)
    ensures Flatten(Parts(name)) == name && |Parts(name)| == (|name| + 12) / 13
    decreases |name|
  {
    if |name| > 13 {
      PartsMakeTheName(name[13..]);
      FlattenCons(name[..13], Parts(name[13..]));
      assert name[..13] + name[13..] == name;
    } else if name != [] {
      FlattenCons(name, []);
    }
  }

  /** `0x40 | number`. */
  function WithLastFlag(number: nat): nat {
    if number / 64 % 2 == 1 then number else number + 64
  }

  /** The first byte of entry `index`; entries stand in reverse order, the flagged last part first. */
  function OrderOf(total: nat, index: nat): nat
    requires index < total
  {
    if index == 0 then WithLastFlag(total) else total - index
  }

  /** The entries of one part and of three, and where the units of an entry stand. */
  lemma LayoutOfEntries()
    ensures OrderOf(1, 0) == 0x41
    ensures OrderOf(3, 0) == 0x43 && OrderOf(3, 1) == 2 && OrderOf(3, 2) == 1
    ensures UnitOffset(0) == 1 && UnitOffset(4) == 9 && UnitOffset(5) == 14 && UnitOffset(10) == 24
    ensures UnitOffset(11) == 28 && UnitOffset(12) == 30
  {
  }

  lemma OrderFitsAByte(total: nat, index: nat)
    requires index < total
    ensures OrderOf(total, index) < 256 <==> total - index < 256
  {
  }

  /** The first entries of the parts, last part first. */
  ghost predicate EntriesSoFar(parts: seq<seq<Unit>>, checksum: Byte, entries: seq<Raw>)
    requires forall k :: 0 <= k < |parts| ==> |parts[k]| <= 13
  {
    && |entries| <= |parts|
    && (forall i {:trigger entries[i]} :: 0 <= i < |entries| ==>
          IsEntry(entries[i], OrderOf(|parts|, i), parts[|parts| - 1 - i], checksum))
  }

  /** All of them; an order is one byte, so there are at most 255 parts. */
  ghost predicate AreEntries(parts: seq<seq<Unit>>, checksum: Byte, entries: seq<Raw>) {
    && |entries| == |parts| < 256 && (forall k :: 0 <= k < |parts| ==> |parts[k]| <= 13)
    && EntriesSoFar(parts, checksum, entries)
  }

  lemma AppendEntry(parts: seq<seq<Unit>>, checksum: Byte, entries: seq<Raw>, raw: Raw)
    requires forall k :: 0 <= k < |parts| ==> |parts[k]| <= 13
    requires |entries| < |parts| && EntriesSoFar(parts, checksum, entries)
    requires IsEntry(raw, OrderOf(|parts|, |entries|), parts[|parts| - 1 - |entries|], checksum)
    ensures EntriesSoFar(parts, checksum, entries + [raw])
  {
    var longer := entries + [raw];
    forall i {:trigger longer[i]} | 0 <= i < |longer|
      ensures IsEntry(longer[i], OrderOf(|parts|, i), parts[|parts| - 1 - i], checksum)
    {
      if i < |entries| {
        assert longer[i] == entries[i];
      }
    }
  }

  /** Taking the next part off the rest of the name. */
  lemma PartsOfRest(chunks: seq<seq<Unit>>, name: seq<Unit>, start: nat)
    requires start < |name|
    ensures start + 13 < |name| ==>
      chunks + Parts(name[start..]) == chunks + [name[start..start + 13]] + Parts(name[start + 13..])
    ensures start + 13 == |name| ==> chunks + Parts(name[start..]) == chunks + [name[start..start + 13]]
    ensures start + 13 > |name| ==> chunks + Parts(name[start..]) == chunks + [name[start..]]
  {
    var rest := name[start..];
    if start + 13 < |name| {
      assert rest[13..] == name[start + 13..] && rest[..13] == name[start..start + 13];
    } else if start + 13 == |name| {
      assert rest == name[start..start + 13];
    }
  }

  /** The first loop: the name in parts. */
  method SplitName(name: seq<Unit>) returns (chunks: seq<seq<Unit>>)
    ensures chunks == Parts(name)
  {
    chunks := [];
    var start := 0;
    assert name[0..] == name;
    while start < |name|
      invariant 0 <= start && (start < |name| ==> chunks + Parts(name[start..]) == Parts(name))
      invariant start >= |name| ==> chunks == Parts(name)
    {
      PartsOfRest(chunks, name, start);
      chunks := chunks + [if start + 13 <= |name| then name[start..start + 13] else name[start..]];
      start := start + 13;
    }
  }

  method EmitEntry(order: Byte, part: seq<Unit>, checksum: Byte) returns (raw: Raw)
    requires |part| <= 13
    ensures IsEntry(raw, order, part, checksum)
  {
    raw := MakeEntry(order, part, checksum);
    UnitsOfEntry(order, part, checksum);
  }

  /** The second loop: the parts in reverse; the first order that does not fit a byte is an error of the source. */
  method EmitEntries(chunks: seq<seq<Unit>>, checksum: Byte) returns (entries: Option<seq<Raw>>)
    requires forall k :: 0 <= k < |chunks| ==> |chunks[k]| <= 13
    ensures entries.Some? <==> |chunks| < 256
    ensures entries.Some? ==> AreEntries(chunks, checksum, entries.value)
  {
    var total := |chunks|;
    var made: seq<Raw> := [];
    for index := 0 to total
      invariant |made| == index && (index > 0 ==> total < 256) && EntriesSoFar(chunks, checksum, made)
    {
      var order := OrderOf(total, index);
      OrderFitsAByte(total, index);
      if order >= 256 {
        return None;
      }
      var raw := EmitEntry(order, chunks[total - 1 - index], checksum);
      AppendEntry(chunks, checksum, made, raw);
      made := made + [raw];
    }
    entries := Some(made);
  }

  method LfnEntries(name: seq<Unit>, checksum: Byte) returns (entries: Option<seq<Raw>>)
    ensures entries.Some? <==> |Parts(name)| < 256
    ensures entries.Some? ==> AreEntries(Parts(name), checksum, entries.value)
  {
    var chunks := SplitName(name);
    entries := EmitEntries(chunks, checksum);
  }

  // ----- _decode_lfn -----

  function Sequence(raw: Raw): nat {
    raw[0] % 32
  }

  predicate LastFlag(raw: Raw) {
    raw[0] / 64 % 2 == 1
  }

  predicate Acceptable(raw: Raw, checksum: Byte) {
    Sequence(raw) != 0 && raw[13] == checksum
  }

  /** The dictionary of units by sequence number after `n` entries. */
  function Ordered(entries: seq<Raw>, n: nat): map<nat, seq<Unit>>
    requires n <= |entries|
  {
    if n == 0 then map[] else Ordered(entries, n - 1)[Sequence(entries[n - 1]) := UnitsOf(entries[n - 1])]
  }

  /** The number of parts announced by the latest flagged entry. */
  function Expected(entries: seq<Raw>, n: nat): Option<nat>
    requires n <= |entries|
  {
    if n == 0 then None
    else if LastFlag(entries[n - 1]) then Some(Sequence(entries[n - 1]))
    else Expected(entries, n - 1)
  }

  /** The dictionary has exactly the numbers 1 to `count`. */
  predicate Numbered(ordered: map<nat, seq<Unit>>, count: nat) {
    (forall k: nat :: 1 <= k <= count ==> k in ordered) && (forall k :: k in ordered ==> 1 <= k <= count)
  }

  /** The units of parts 1 to `count`, joined. */
  function Joined(ordered: map<nat, seq<Unit>>, count: nat): seq<Unit>
    requires forall k: nat :: 1 <= k <= count ==> k in ordered
  {
    if count == 0 then [] else Joined(ordered, count - 1) + ordered[count]
  }

  /** The terminator and the padding taken out. */
  function Kept(units: seq<Unit>): seq<Unit> {
    if units == [] then []
    else
      var last := units[|units| - 1];
      Kept(units[..|units| - 1]) + if last == 0 || last == 0xFFFF then [] else [last]
  }

  predicate HighSurrogate(u: Unit) {
    0xD800 <= u < 0xDC00
  }

  predicate LowSurrogate(u: Unit) {
    0xDC00 <= u < 0xE000
  }

  /** Strict UTF-16 decoding into code points; `None` for a surrogate without its partner. */
  function Utf16(units: seq<Unit>): Option<seq<nat>> {
    if units == [] then Some([])
    else if HighSurrogate(units[0]) then
      if |units| < 2 || !LowSurrogate(units[1]) then None
      else match Utf16(units[2..])
        case None => None
        case Some(rest) => Some([PointOf(units[0], units[1])] + rest)
    else if LowSurrogate(units[0]) then None
    else match Utf16(units[1..])
      case None => None
      case Some(rest) => Some([units[0]] + rest)
  }

  /** The UTF-16 units of a code point. */
  function UnitsOfPoint(p: nat): seq<Unit>
    requires p < 0x11_0000
  {
    if p < 0x1_0000 then [p] else [0xD800 + (p - 0x1_0000) / 0x400, 0xDC00 + (p - 0x1_0000) % 0x400]
  }

  function UnitsOfPoints(points: seq<nat>): seq<Unit>
    requires forall i :: 0 <= i < |points| ==> points[i] < 0x11_0000
  {
    if points == [] then [] else UnitsOfPoint(points[0]) + UnitsOfPoints(points[1..])
  }

  /** Two surrogates make one point, and only that point is written as these two. */
  lemma PairIsOnePoint(high: Unit, low: Unit)
    requires HighSurrogate(high) && LowSurrogate(low)
    ensures var p := PointOf(high, low);
      0x1_0000 <= p < 0x11_0000 && UnitsOfPoint(p) == [high, low]
  {
    var p := PointOf(high, low);
    var offset := p - 0x1_0000;
    assert offset == 0x400 * (high as int - 0xD800) + (low as int - 0xDC00);
    assert offset / 0x400 == high as int - 0xD800 && offset % 0x400 == low as int - 0xDC00;
  }

  /** The point that two surrogates stand for. */
  function PointOf(high: Unit, low: Unit): nat
    requires HighSurrogate(high) && LowSurrogate(low)
  {
    0x1_0000 + 0x400 * (high as int - 0xD800) + (low as int - 0xDC00)
  }

  lemma LargePointIsPair(p: nat)
    requires 0x1_0000 <= p < 0x11_0000
    ensures var units := UnitsOfPoint(p);
      |units| == 2 && HighSurrogate(units[0]) && LowSurrogate(units[1]) && PointOf(units[0], units[1]) == p
  {
    var offset := p - 0x1_0000;
    assert offset == 0x400 * (offset / 0x400) + offset % 0x400;
  }

  /** One point more at the front. */
  lemma Utf16OfFirst(p: nat, rest: seq<Unit>)
    requires p < 0x11_0000 && !(0xD800 <= p < 0xE000) && Utf16(rest).Some?
    ensures Utf16(UnitsOfPoint(p) + rest) == Some([p] + Utf16(rest).value)
  {
    var units := UnitsOfPoint(p) + rest;
    if p < 0x1_0000 {
      assert units[0] == p && units[1..] == rest;
    } else {
      LargePointIsPair(p);
      assert units[0] == UnitsOfPoint(p)[0] && units[1] == UnitsOfPoint(p)[1] && units[2..] == rest;
    }
  }

  /** Decoding gives back all code points, those beyond the sixteen-bit ones too. */
  lemma {:induction false} Utf16ReadsBack(points: seq<nat>)
    requires forall i :: 0 <= i < |points| ==> points[i] < 0x11_0000 && !(0xD800 <= points[i] < 0xE000)
    ensures Utf16(UnitsOfPoints(points)) == Some(points)
    decreases |points|
  {
    if points != [] {
      Utf16ReadsBack(points[1..]);
      Utf16OfFirst(points[0], UnitsOfPoints(points[1..]));
      assert points == [points[0]] + points[1..];
    }
  }

  ghost predicate ArePoints(points: seq<nat>) {
    forall i :: 0 <= i < |points| ==> points[i] < 0x11_0000 && !(0xD800 <= points[i] < 0xE000)
  }

  lemma UnitsOfMore(p: nat, points: seq<nat>)
    requires p < 0x11_0000 && !(0xD800 <= p < 0xE000) && ArePoints(points)
    ensures ArePoints([p] + points) && UnitsOfPoints([p] + points) == UnitsOfPoint(p) + UnitsOfPoints(points)
  {
    assert ([p] + points)[1..] == points;
  }

  /** And nothing else decodes: units that do are those of the code points they decode to. */
  lemma {:induction false} Utf16IsStrict(units: seq<Unit>)
    requires Utf16(units).Some?
    ensures ArePoints(Utf16(units).value) && UnitsOfPoints(Utf16(units).value) == units
    decreases |units|
  {
    if units != [] {
      if HighSurrogate(units[0]) {
        Utf16IsStrict(units[2..]);
        PairIsOnePoint(units[0], units[1]);
        UnitsOfMore(PointOf(units[0], units[1]), Utf16(units[2..]).value);
        assert units == [units[0], units[1]] + units[2..];
      } else {
        Utf16IsStrict(units[1..]);
        UnitsOfMore(units[0], Utf16(units[1..]).value);
        assert units == [units[0]] + units[1..];
      }
    }
  }

  datatype Decoded = NoName | Invalid | Name(text: seq<nat>)

  /** What the entries collected before a short entry decode to. */
  function Decode(entries: seq<Raw>, checksum: Byte, deleted: bool): Decoded {
    if entries == [] || deleted then NoName
    else if exists i :: 0 <= i < |entries| && !Acceptable(entries[i], checksum) then Invalid
    else
      var ordered, expected := Ordered(entries, |entries|), Expected(entries, |entries|);
      if expected.None? || !Numbered(ordered, expected.value) then Invalid
      else match Utf16(Kept(Joined(ordered, expected.value)))
        case None => Invalid
        case Some(text) => Name(text)
  }

  lemma {:induction false} OrderedHas(entries: seq<Raw>, n: nat, k: nat)
    requires n <= |entries|
    ensures k in Ordered(entries, n) <==> HasNumber(entries[..n], k)
  {
    if n > 0 {
      OrderedHas(entries, n - 1, k);
      assert entries[..n] == entries[..n - 1] + [entries[n - 1]];
      if HasNumber(entries[..n - 1], k) {
        var i :| 0 <= i < n - 1 && entries[..n - 1][i][0] % 32 == k;
        assert entries[..n][i][0] % 32 == k;
      }
      if Sequence(entries[n - 1]) == k {
        assert entries[..n][n - 1][0] % 32 == k;
      }
    }
  }

  ghost predicate HasNumber(entries: seq<Raw>, k: nat) {
    exists i :: 0 <= i < |entries| && entries[i][0] % 32 == k
  }

  /** Entry `i` is flagged as the last part, and none after it is. */
  ghost predicate LastFlagged(entries: seq<Raw>, i: nat)
    requires i < |entries|
  {
    entries[i][0] / 64 % 2 == 1 && forall j :: i < j < |entries| ==> entries[j][0] / 64 % 2 == 0
  }

  lemma {:induction false} ExpectedIsLastFlagged(entries: seq<Raw>, n: nat)
    requires n <= |entries| && Expected(entries, n).Some?
    ensures exists i: nat :: i < n && LastFlagged(entries[..n], i) && Sequence(entries[i]) == Expected(entries, n).value
  {
    if LastFlag(entries[n - 1]) {
      assert LastFlagged(entries[..n], n - 1);
    } else {
      ExpectedIsLastFlagged(entries, n - 1);
      var i: nat :| i < n - 1 && LastFlagged(entries[..n - 1], i)
        && Sequence(entries[i]) == Expected(entries, n - 1).value;
      forall j | i < j < n ensures entries[..n][j][0] / 64 % 2 == 0 {
        if j < n - 1 {
          assert entries[..n - 1][j] == entries[..n][j];
        }
      }
      assert entries[..n - 1][i] == entries[i];
      assert LastFlagged(entries[..n], i);
    }
  }

  /**
    * Entries give a name only if every one of them has the checksum and a number, one is flagged,
    * and their numbers are exactly those up to that of the last flagged one.
    */
  lemma NamedEntriesAreComplete(entries: seq<Raw>, checksum: Byte, deleted: bool) returns (last: nat)
    requires Decode(entries, checksum, deleted).Name?
    ensures !deleted && last < |entries|
    ensures forall i :: 0 <= i < |entries| ==> entries[i][13] == checksum
    ensures LastFlagged(entries, last)
    ensures forall i :: 0 <= i < |entries| ==> 1 <= entries[i][0] % 32 <= entries[last][0] % 32
    ensures forall k: nat :: 1 <= k <= entries[last][0] % 32 ==> HasNumber(entries, k)
  {
    var ordered, count := Ordered(entries, |entries|), Expected(entries, |entries|).value;
    ExpectedIsLastFlagged(entries, |entries|);
    assert entries[..|entries|] == entries;
    last :| last < |entries| && LastFlagged(entries, last) && Sequence(entries[last]) == count;
    forall i | 0 <= i < |entries| ensures 1 <= entries[i][0] % 32 <= count {
      assert Acceptable(entries[i], checksum);
      OrderedHas(entries, |entries|, Sequence(entries[i]));
      assert HasNumber(entries, entries[i][0] % 32);
    }
    forall k: nat | 1 <= k <= count ensures HasNumber(entries, k) {
      OrderedHas(entries, |entries|, k);
    }
  }

  method DecodeLfn(entries: seq<Raw>, checksum: Byte, deleted: bool) returns (d: Decoded)
    ensures d == Decode(entries, checksum, deleted)
  {
    if entries == [] || deleted {
      return NoName;
    }
    var ordered: map<nat, seq<Unit>> := map[];
    var expected: Option<nat> := None;
    for n := 0 to |entries|
      invariant ordered == Ordered(entries, n) && expected == Expected(entries, n)
      invariant forall i :: 0 <= i < n ==> Acceptable(entries[i], checksum)
    {
      var raw := entries[n];
      if LastFlag(raw) {
        expected := Some(Sequence(raw));
      }
      if !Acceptable(raw, checksum) {
        return Invalid;
      }
      ordered := ordered[Sequence(raw) := UnitsOf(raw)];
    }
    if expected.None? || !Numbered(ordered, expected.value) {
      return Invalid;
    }
    var units: seq<Unit> := [];
    for k := 0 to expected.value
      invariant units == Joined(ordered, k)
    {
      units := units + ordered[k + 1];
    }
    match Utf16(Kept(units)) {
      case None => d := Invalid;
      case Some(text) => d := Name(text);
    }
  }

  // ----- Round trip -----

  lemma {:induction false} KeptConcat(a: seq<Unit>, b: seq<Unit>)
    ensures Kept(a + b) == Kept(a) + Kept(b)
    decreases |b|
  {
    if b == [] {
      assert a + b == a;
    } else {
      var n := |b| - 1;
      assert (a + b)[..|a + b| - 1] == a + b[..n];
      KeptConcat(a, b[..n]);
    }
  }

  lemma {:induction false} FillerIsDropped(filler: seq<Unit>)
    requires forall i :: 0 <= i < |filler| ==> filler[i] in {0, 0xFFFF}
    ensures Kept(filler) == []
  {
    if filler != [] {
      FillerIsDropped(filler[..|filler| - 1]);
    }
  }

  lemma KeptSlots(part: seq<Unit>)
    requires |part| <= 13
    ensures Kept(Slots(part)) == Kept(part)
  {
    var filler := Filler(13 - |part|);
    FillerIsDropped(filler);
    KeptConcat(part, filler);
  }

  /** Up to 31 parts: every entry carries its own number, and the first one announces them all. */
  lemma OrderIsNumber(total: nat, i: nat)
    requires i < total <= 31
    ensures OrderOf(total, i) % 32 == total - i && (OrderOf(total, i) / 64 % 2 == 1 <==> i == 0)
  {
  }

  /** The dictionary after `n` entries holds the last `n` parts under their numbers. */
  ghost predicate HoldsParts(ordered: map<nat, seq<Unit>>, parts: seq<seq<Unit>>, n: nat)
    requires n <= |parts| && forall k :: 0 <= k < |parts| ==> |parts[k]| <= 13
  {
    && (forall k: nat {:trigger k in ordered} :: k in ordered <==> |parts| - n < k <= |parts|)
    && (forall k: nat {:trigger ordered[k]} :: |parts| - n < k <= |parts| ==> ordered[k] == Slots(parts[k - 1]))
  }

  /** The entry at `i` has the number, the units and the flag of its part. */
  ghost predicate HoldsItsPart(parts: seq<seq<Unit>>, checksum: Byte, raw: Raw, i: nat)
    requires i < |parts| && |parts[|parts| - 1 - i]| <= 13
  {
    && Acceptable(raw, checksum) && Sequence(raw) == |parts| - i
    && UnitsOf(raw) == Slots(parts[|parts| - 1 - i]) && (LastFlag(raw) <==> i == 0)
  }

  lemma EntryHoldsItsPart(parts: seq<seq<Unit>>, checksum: Byte, entries: seq<Raw>, i: nat)
    requires AreEntries(parts, checksum, entries) && i < |parts| <= 31
    ensures HoldsItsPart(parts, checksum, entries[i], i)
  {
    var total, part := |parts|, parts[|parts| - 1 - i];
    OrderIsNumber(total, i);
    assert IsEntry(entries[i], OrderOf(total, i), part, checksum);
  }

  ghost predicate HoldTheirParts(parts: seq<seq<Unit>>, checksum: Byte, entries: seq<Raw>) {
    && |entries| == |parts| && (forall k :: 0 <= k < |parts| ==> |parts[k]| <= 13)
    && forall i: nat {:trigger HoldsItsPart(parts, checksum, entries[i], i)} :: i < |parts| ==>
      HoldsItsPart(parts, checksum, entries[i], i)
  }

  lemma EntriesHoldTheirParts(parts: seq<seq<Unit>>, checksum: Byte, entries: seq<Raw>)
    requires AreEntries(parts, checksum, entries) && |parts| <= 31
    ensures HoldTheirParts(parts, checksum, entries)
    ensures forall i :: 0 <= i < |entries| ==> Acceptable(entries[i], checksum)
  {
    forall i: nat | i < |parts|
      ensures HoldsItsPart(parts, checksum, entries[i], i) && Acceptable(entries[i], checksum)
    {
      EntryHoldsItsPart(parts, checksum, entries, i);
    }
  }

  lemma {:induction false} OrderedParts(parts: seq<seq<Unit>>, checksum: Byte, entries: seq<Raw>, n: nat)
    requires HoldTheirParts(parts, checksum, entries) && n <= |parts|
    ensures HoldsParts(Ordered(entries, n), parts, n)
    ensures n > 0 ==> Expected(entries, n) == Some(|parts|)
  {
    if n > 0 {
      OrderedParts(parts, checksum, entries, n - 1);
      assert HoldsItsPart(parts, checksum, entries[n - 1], n - 1);
      HoldsOnePartMore(Ordered(entries, n - 1), parts, n - 1);
      OneEntryMore(entries, n - 1);
    }
  }

  lemma OneEntryMore(entries: seq<Raw>, n: nat)
    requires n < |entries|
    ensures Ordered(entries, n + 1) == Ordered(entries, n)[Sequence(entries[n]) := UnitsOf(entries[n])]
    ensures Expected(entries, n + 1) ==
      if LastFlag(entries[n]) then Some(Sequence(entries[n])) else Expected(entries, n)
  {
  }

  lemma HoldsOnePartMore(ordered: map<nat, seq<Unit>>, parts: seq<seq<Unit>>, n: nat)
    requires n < |parts| && (forall k :: 0 <= k < |parts| ==> |parts[k]| <= 13) && HoldsParts(ordered, parts, n)
    ensures HoldsParts(ordered[|parts| - n := Slots(parts[|parts| - n - 1])], parts, n + 1)
  {
  }

  lemma {:induction false} JoinedParts(parts: seq<seq<Unit>>, ordered: map<nat, seq<Unit>>, m: nat)
    requires m <= |parts| && forall k :: 0 <= k < |parts| ==> |parts[k]| <= 13
    requires HoldsParts(ordered, parts, |parts|)
    ensures Kept(Joined(ordered, m)) == Kept(Flatten(parts[..m]))
  {
    if m > 0 {
      JoinedParts(parts, ordered, m - 1);
      var part := parts[m - 1];
      assert ordered[m] == Slots(part);
      KeptConcat(Joined(ordered, m - 1), Slots(part));
      KeptSlots(part);
      assert parts[..m][..m - 1] == parts[..m - 1];
      KeptConcat(Flatten(parts[..m - 1]), part);
    }
  }

  function NameOrInvalid(text: Option<seq<nat>>): Decoded {
    match text
    case None => Invalid
    case Some(units) => Name(units)
  }

  lemma DecodeNumbered(entries: seq<Raw>, checksum: Byte, count: nat)
    requires entries != [] && forall i :: 0 <= i < |entries| ==> Acceptable(entries[i], checksum)
    requires Expected(entries, |entries|) == Some(count) && Numbered(Ordered(entries, |entries|), count)
    ensures Decode(entries, checksum, false) ==
      NameOrInvalid(Utf16(Kept(Joined(Ordered(entries, |entries|), count))))
  {
  }

  lemma DecodeOfFewParts(parts: seq<seq<Unit>>, checksum: Byte, entries: seq<Raw>)
    requires AreEntries(parts, checksum, entries) && 0 < |parts| <= 31
    ensures Decode(entries, checksum, false) ==
      NameOrInvalid(Utf16(Kept(Flatten(parts))))
  {
    EntriesHoldTheirParts(parts, checksum, entries);
    OrderedParts(parts, checksum, entries, |parts|);
    assert parts[..|parts|] == parts;
    JoinedParts(parts, Ordered(entries, |parts|), |parts|);
    DecodeNumbered(entries, checksum, |parts|);
  }

  lemma DecodeOfManyParts(parts: seq<seq<Unit>>, checksum: Byte, entries: seq<Raw>)
    requires AreEntries(parts, checksum, entries) && |parts| >= 32
    ensures Decode(entries, checksum, false) == Invalid
  {
    var i := |parts| - 32;
    var order := OrderOf(|parts|, i);
    assert order == if i == 0 then 96 else 32;
    assert IsEntry(entries[i], order, parts[31], checksum);
    assert !Acceptable(entries[i], checksum);
  }

  /** Itself without zeros and 0xFFFF, decoded strictly, up to 403 units; beyond, nothing. */
  ghost function Outcome(name: seq<Unit>): Decoded {
    if name == [] then NoName
    else if |name| > 403 then Invalid
    else NameOrInvalid(Utf16(Kept(name)))
  }

  /** What the entries of any name decode to. */
  lemma DecodeOfEntries(name: seq<Unit>, checksum: Byte, entries: seq<Raw>)
    requires AreEntries(Parts(name), checksum, entries)
    ensures Decode(entries, checksum, false) == Outcome(name)
  {
    PartsMakeTheName(name);
    if 1 <= |name| <= 403 {
      DecodeOfFewParts(Parts(name), checksum, entries);
    } else if |name| > 403 {
      DecodeOfManyParts(Parts(name), checksum, entries);
    }
  }

  predicate Plain(u: Unit) {
    u != 0 && u != 0xFFFF && !HighSurrogate(u) && !LowSurrogate(u)
  }

  lemma {:induction false} KeptIsShorter(units: seq<Unit>)
    ensures |Kept(units)| <= |units|
    ensures |Kept(units)| == |units| ==> Kept(units) == units && 0 !in units && 0xFFFF !in units
    ensures 0 !in units && 0xFFFF !in units ==> Kept(units) == units
  {
    if units != [] {
      var n := |units| - 1;
      KeptIsShorter(units[..n]);
      assert units == units[..n] + [units[n]];
    }
  }

  lemma {:induction false} Utf16Exact(units: seq<Unit>)
    ensures Utf16(units).Some? ==> |Utf16(units).value| <= |units|
    ensures Utf16(units) == Some(units) <==>
      forall i :: 0 <= i < |units| ==> !HighSurrogate(units[i]) && !LowSurrogate(units[i])
    decreases |units|
  {
    if units != [] {
      assert units == [units[0]] + units[1..];
      Utf16Exact(units[1..]);
      if HighSurrogate(units[0]) && |units| >= 2 {
        Utf16Exact(units[2..]);
      }
      if forall i :: 0 <= i < |units[1..]| ==> !HighSurrogate(units[1..][i]) && !LowSurrogate(units[1..][i]) {
        forall i | 1 <= i < |units| ensures !HighSurrogate(units[i]) && !LowSurrogate(units[i]) {
          assert units[i] == units[1..][i - 1];
        }
      }
    }
  }

  /** A name survives the round trip exactly when it has 1 to 403 units, none of them zero, 0xFFFF or a surrogate. */
  lemma RoundTripIff(name: seq<Unit>, checksum: Byte, entries: seq<Raw>)
    requires AreEntries(Parts(name), checksum, entries)
    ensures Decode(entries, checksum, false) == Name(name) <==>
      1 <= |name| <= 403 && forall i :: 0 <= i < |name| ==> Plain(name[i])
  {
    DecodeOfEntries(name, checksum, entries);
    OutcomeIsNameIff(name);
  }

  lemma OutcomeIsNameIff(name: seq<Unit>)
    ensures Outcome(name) == Name(name) <==> 1 <= |name| <= 403 && forall i :: 0 <= i < |name| ==> Plain(name[i])
  {
    KeptIsShorter(name);
    if |Kept(name)| == |name| {
      Utf16Exact(name);
      assert forall i :: 0 <= i < |name| ==> name[i] in name;
    } else {
      Utf16Exact(Kept(name));
      SomeUnitIsDropped(name);
    }
  }

  lemma SomeUnitIsDropped(name: seq<Unit>)
    requires |Kept(name)| < |name|
    ensures exists i :: 0 <= i < |name| && !Plain(name[i])
  {
    KeptIsShorter(name);
    var u :| u in name && (u == 0 || u == 0xFFFF);
    var i :| 0 <= i < |name| && name[i] == u;
  }

  /** Another checksum than the short name's discards the long name. */
  lemma WrongChecksumIsInvalid(name: seq<Unit>, checksum: Byte, entries: seq<Raw>, other: Byte)
    requires AreEntries(Parts(name), checksum, entries) && name != [] && other != checksum
    ensures Decode(entries, other, false) == Invalid
  {
    PartsMakeTheName(name);
    var parts := Parts(name);
    assert IsEntry(entries[0], OrderOf(|parts|, 0), parts[|parts| - 1], checksum);
    assert !Acceptable(entries[0], other);
  }

  // ----- The two checksums -----

  /** The fixture builder's `_lfn_checksum`. */
  function BuilderChecksum(shortName: seq<Byte>): Byte {
    SumOf(shortName) % 256
  }

  function SumOf(bytes: seq<Byte>): nat {
    if bytes == [] then 0 else SumOf(bytes[..|bytes| - 1]) + bytes[|bytes| - 1] as nat
  }

  /** The parser's `_lfn_checksum`: the sum so far is rotated right by one bit before each byte. */
  function ParserChecksum(shortName: seq<Byte>): Byte {
    if shortName == [] then 0
    else
      var sum := ParserChecksum(shortName[..|shortName| - 1]) as nat;
      (sum % 2 * 128 + sum / 2 + shortName[|shortName| - 1] as nat) % 256
  }

  /**
    * What the builder prints for a short name, the parser gives back if and only if it would
    * without checksums and the two checksums of the short name agree.
    */
  lemma BuiltNameSurvivesIff(name: seq<Unit>, shortName: seq<Byte>, entries: seq<Raw>)
    requires AreEntries(Parts(name), BuilderChecksum(shortName), entries)
    ensures Decode(entries, ParserChecksum(shortName), false) == Name(name) <==>
      && BuilderChecksum(shortName) == ParserChecksum(shortName)
      && 1 <= |name| <= 403 && forall i :: 0 <= i < |name| ==> Plain(name[i])
  {
    if BuilderChecksum(shortName) == ParserChecksum(shortName) {
      RoundTripIff(name, BuilderChecksum(shortName), entries);
    } else if name != [] {
      WrongChecksumIsInvalid(name, BuilderChecksum(shortName), entries, ParserChecksum(shortName));
    } else {
      DecodeOfEntries(name, BuilderChecksum(shortName), entries);
    }
  }

  /** A text whose checksums are known, and one more byte. */
  lemma NextChecksums(bytes: seq<Byte>, b: Byte, longer: seq<Byte>, built: nat, parsed: nat)
    requires longer == bytes + [b] && SumOf(bytes) == built && ParserChecksum(bytes) as nat == parsed
    ensures SumOf(longer) == built + b as nat
    ensures ParserChecksum(longer) as nat == (parsed % 2 * 128 + parsed / 2 + b as nat) % 256
  {
    assert longer[..|bytes|] == bytes;
  }

  /** Two bytes more, with the parser's checksum in between. */
  lemma NextTwo(bytes: seq<Byte>, a: Byte, b: Byte, longer: seq<Byte>, built: nat, parsed: nat, between: nat)
    requires longer == bytes + [a, b] && SumOf(bytes) == built && ParserChecksum(bytes) as nat == parsed
    requires between == (parsed % 2 * 128 + parsed / 2 + a as nat) % 256
    ensures SumOf(longer) == built + a as nat + b as nat
    ensures ParserChecksum(longer) as nat == (between % 2 * 128 + between / 2 + b as nat) % 256
  {
    var one := bytes + [a];
    NextChecksums(bytes, a, one, built, parsed);
    NextChecksums(one, b, longer, built + a as nat, between);
  }

  lemma ChecksumsOfStart(p0: seq<Byte>, p2: seq<Byte>, p4: seq<Byte>)
    requires p0 == [] && p2 == p0 + [78, 65] && p4 == p2 + [73, 86]
    ensures SumOf(p4) == 302 && ParserChecksum(p4) == 20
  {
    NextTwo(p0, 78, 65, p2, 0, 0, 78);
    NextTwo(p2, 73, 86, p4, 143, 104, 125);
  }

  lemma ChecksumsOfSix(p4: seq<Byte>, p6: seq<Byte>)
    requires SumOf(p4) == 302 && ParserChecksum(p4) == 20 && p6 == p4 + [69, 126]
    ensures SumOf(p6) == 497 && ParserChecksum(p6) == 37
  {
    NextTwo(p4, 69, 126, p6, 302, 20, 79);
  }

  lemma ChecksumsOfEight(p6: seq<Byte>, p8: seq<Byte>)
    requires SumOf(p6) == 497 && ParserChecksum(p6) == 37 && p8 == p6 + [49, 32]
    ensures SumOf(p8) == 578 && ParserChecksum(p8) == 1
  {
    NextTwo(p6, 49, 32, p8, 497, 37, 195);
  }

  lemma ChecksumsOfEnd(p8: seq<Byte>, p10: seq<Byte>, p11: seq<Byte>)
    requires SumOf(p8) == 578 && ParserChecksum(p8) == 1 && p10 == p8 + [84, 88] && p11 == p10 + [84]
    ensures SumOf(p11) == 834 && ParserChecksum(p11) == 181
  {
    NextTwo(p8, 84, 88, p10, 578, 1, 212);
    NextChecksums(p10, 84, p11, 750, 194);
  }

  /** The two checksums of `NAIVE~1.TXT`. */
  lemma ChecksumsMayDiffer(naive: seq<Byte>)
    requires naive == [78, 65, 73, 86, 69, 126, 49, 32, 84, 88, 84]
    ensures BuilderChecksum(naive) == 66 && ParserChecksum(naive) == 181
  {
    ChecksumsOfStart(naive[..0], naive[..2], naive[..4]);
    ChecksumsOfSix(naive[..4], naive[..6]);
    ChecksumsOfEight(naive[..6], naive[..8]);
    ChecksumsOfEnd(naive[..8], naive[..10], naive);
  }

  /** So the parser does not give back the long name that the builder prints for that entry. */
  method FixtureNameIsLost() returns (d: Decoded)
    ensures d == Invalid
  {
    var naive: seq<Byte> := [78, 65, 73, 86, 69, 126, 49, 32, 84, 88, 84];
    var name: seq<Unit> := [0x6E, 0x61, 0xEF, 0x76, 0x65, 0x2D, 0x6587, 0x4EF6, 0x2E, 0x74, 0x78, 0x74];
    ChecksumsMayDiffer(naive);
    PartsMakeTheName(name);
    var entries := LfnEntries(name, BuilderChecksum(naive));
    d := DecodeLfn(entries.value, ParserChecksum(naive), false);
    WrongChecksumIsInvalid(name, BuilderChecksum(naive), entries.value, ParserChecksum(naive));
  }

  /** The two loops, one after the other. */
  method PrintAndParse(name: seq<Unit>, checksum: Byte) returns (d: Decoded)
    ensures d == Name(name) <==> 1 <= |name| <= 403 && forall i :: 0 <= i < |name| ==> Plain(name[i])
  {
    var entries := LfnEntries(name, checksum);
    if entries.None? {
      PartsMakeTheName(name);
      return Invalid;
    }
    d := DecodeLfn(entries.value, checksum, false);
    RoundTripIff(name, checksum, entries.value);
  }
}
