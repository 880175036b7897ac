/**
 The file allocation table of FAT12: two 12-bit entries packed into three bytes
 (section "FAT Type Determination" of Microsoft's "FAT: General Overview of On-Disk Format" v1.03).

 Masks and shifts over disjoint bit ranges are written as remainders, quotients and sums.
 */
module Fat12Table {
  import opened Bytes

  type Entry = v: nat | v < 4096

  /** Two bytes read as a little-endian word. */
  function Word(a: Byte, b: Byte): nat {
    a as nat + 256 * (b as nat)
  }

  /** `_encode_fat` of two neighbouring entries: three bytes. */
  ghost predicate Packed(a: Byte, b: Byte, c: Byte, low: Entry, high: Entry) {
    a == low % 256 && b == low / 256 + 16 * (high % 16) && c == high / 16
  }

  /** The entry at `i`, or zero where an odd number of entries was padded. */
  function EntryAt(values: seq<Entry>, i: nat): Entry {
    if i < |values| then values[i] else 0
  }

  /** Pair `k` of the entries, packed, is what `raw` holds at its place. */
  ghost predicate PairPacked(raw: seq<Byte>, values: seq<Entry>, k: nat)
    requires 3 * k + 2 < |raw|
  {
    Packed(raw[3 * k], raw[3 * k + 1], raw[3 * k + 2], EntryAt(values, 2 * k), EntryAt(values, 2 * k + 1))
  }

  /** `raw` starts with the packed form of `values`. */
  ghost predicate StartsWithPacked(raw: seq<Byte>, values: seq<Entry>) {
    PairsPacked(raw, values, (|values| + 1) / 2)
  }

  function PackPair(low: Entry, high: Entry): (bytes: seq<Byte>)
    ensures |bytes| == 3 && Packed(bytes[0], bytes[1], bytes[2], low, high)
  {
    [low % 256, low / 256 % 16 + 16 * (high % 16), high / 16 % 256]
  }

  ghost predicate PairsPacked(raw: seq<Byte>, values: seq<Entry>, n: nat) {
    |raw| >= 3 * n && forall k: nat :: k < n ==> PairPacked(raw, values, k)
  }

  lemma AppendPair(raw: seq<Byte>, values: seq<Entry>, n: nat, bytes: seq<Byte>)
    requires |raw| == 3 * n && PairsPacked(raw, values, n) && |bytes| == 3
    requires Packed(bytes[0], bytes[1], bytes[2], EntryAt(values, 2 * n), EntryAt(values, 2 * n + 1))
    ensures PairsPacked(raw + bytes, values, n + 1)
  {
    forall k: nat | k < n + 1 ensures PairPacked(raw + bytes, values, k) {
      if k < n {
        assert PairPacked(raw, values, k);
        PairStays(raw, bytes, values, k);
      }
    }
  }

  lemma PairStays(raw: seq<Byte>, bytes: seq<Byte>, values: seq<Entry>, k: nat)
    requires 3 * k + 2 < |raw| && PairPacked(raw, values, k)
    ensures PairPacked(raw + bytes, values, k)
  {
  }

  /** The entries, made even in number. */
  function Padded(values: seq<Entry>): (padded: seq<Entry>)
    ensures |padded| % 2 == 0 && |padded| / 2 == (|values| + 1) / 2
    ensures forall i :: 0 <= i < |padded| ==> padded[i] == EntryAt(values, i)
  {
    if |values| % 2 == 1 then values + [0] else values
  }

  method EncodeFat(values: seq<Entry>) returns (raw: seq<Byte>)
    ensures |raw| == 3 * ((|values| + 1) / 2) && StartsWithPacked(raw, values)
  {
    raw := [];
    var padded := Padded(values);
    var index := 0;
    ghost var pairs := 0;
    while index < |padded|
      invariant index == 2 * pairs <= |padded| && |raw| == 3 * pairs
      invariant PairsPacked(raw, values, pairs)
    {
      var bytes := PackPair(padded[index], padded[index + 1]);
      AppendPair(raw, values, pairs, bytes);
      raw := raw + bytes;
      index, pairs := index + 2, pairs + 1;
    }
  }

  /** `_decode_fat` of one entry; an entry past the end of the bytes reads as free. */
  function Unpacked(raw: seq<Byte>, i: nat): Entry {
    var offset := i + i / 2;
    if offset + 1 >= |raw| then 0
    else if i % 2 == 1 then Word(raw[offset], raw[offset + 1]) / 16
    else Word(raw[offset], raw[offset + 1]) % 4096
  }

  /** Both entries that a word can hold have twelve bits. */
  lemma WordHoldsEntries(low: Byte, high: Byte)
    ensures Word(low, high) / 16 % 4096 == Word(low, high) / 16 < 4096
  {
  }

  method DecodeFat(raw: seq<Byte>, count: nat) returns (values: seq<Entry>)
    ensures |values| == count && forall i :: 0 <= i < count ==> values[i] == Unpacked(raw, i)
    ensures forall i :: 0 <= i < count && i + i / 2 + 1 >= |raw| ==> values[i] == 0
  {
    values := [];
    for index := 0 to count
      invariant |values| == index && forall i :: 0 <= i < index ==> values[i] == Unpacked(raw, i)
    {
      var offset := index + index / 2;
      if offset + 1 >= |raw| {
        values := values + [0];
      } else {
        var word := Word(raw[offset], raw[offset + 1]);
        WordHoldsEntries(raw[offset], raw[offset + 1]);
        values := values + [if index % 2 == 1 then word / 16 % 4096 else word % 4096];
      }
    }
  }

  /** The layout of FAT12: of two entries, the first has the first byte and the low half of the second. */
  lemma PackingExample()
    ensures PackPair(0x123, 0x456) == [0x23, 0x61, 0x45]
    ensures Unpacked([0x23, 0x61, 0x45], 0) == 0x123 && Unpacked([0x23, 0x61, 0x45], 1) == 0x456
  {
  }

  lemma LowEntry(a: nat, b: nat)
    requires a < 256
    ensures (a + 256 * b) % 4096 == a + 256 * (b % 16)
  {
    assert a + 256 * b == a + 256 * (b % 16) + 4096 * (b / 16);
  }

  lemma HighEntry(b: nat, c: nat)
    ensures (b + 256 * c) / 16 == b / 16 + 16 * c
  {
  }

  lemma Nibbles(a: nat, b: nat, low: nat, high: nat)
    requires a < 256
    ensures low == a + 256 * (b % 16) ==> low % 256 == a && low / 256 == b % 16
    ensures low % 256 == a && low / 256 == b % 16 ==> low == a + 256 * (b % 16)
  {
  }

  /** The two ways to relate three bytes to two entries say the same. */
  lemma UnpackPair(a: Byte, b: Byte, c: Byte, low: Entry, high: Entry)
    ensures Packed(a, b, c, low, high) <==> Word(a, b) % 4096 == low && Word(b, c) / 16 == high
  {
    LowEntry(a, b);
    HighEntry(b, c);
    Nibbles(a, b, low, high);
    var n0, n1 := b as nat % 16, b as nat / 16;
    assert b as nat == n0 + 16 * n1;
    if high as nat == n1 + 16 * (c as nat) {
      assert high as nat % 16 == n1 && high as nat / 16 == c as nat;
    }
    if Packed(a, b, c, low, high) {
      assert low as nat / 256 == n0 && high as nat % 16 == n1;
    }
  }

  /** Decoding undoes encoding, whatever bytes follow the packed entries. */
  lemma UnpackedPacked(raw: seq<Byte>, values: seq<Entry>, i: nat)
    requires StartsWithPacked(raw, values) && i < |values|
    ensures Unpacked(raw, i) == values[i]
  {
    var k := i / 2;
    assert PairPacked(raw, values, k);
    UnpackPair(raw[3 * k], raw[3 * k + 1], raw[3 * k + 2], EntryAt(values, 2 * k), EntryAt(values, 2 * k + 1));
    assert if i % 2 == 0 then i == 2 * k && i + i / 2 == 3 * k else i == 2 * k + 1 && i + i / 2 == 3 * k + 1;
  }

  /** Two tables packed into the same bytes are equal. */
  lemma PackingIsInjective(raw: seq<Byte>, v: seq<Entry>, w: seq<Entry>)
    requires |v| == |w| && StartsWithPacked(raw, v) && StartsWithPacked(raw, w)
    ensures v == w
  {
    forall i | 0 <= i < |v| ensures v[i] == w[i] {
      UnpackedPacked(raw, v, i);
      UnpackedPacked(raw, w, i);
    }
  }

  /** Encoding undoes decoding of a whole number of pairs. */
  lemma PackedUnpacked(raw: seq<Byte>, values: seq<Entry>, pairs: nat)
    requires |raw| == 3 * pairs && |values| == 2 * pairs
    requires forall i :: 0 <= i < |values| ==> values[i] == Unpacked(raw, i)
    ensures StartsWithPacked(raw, values)
  {
    forall k: nat | k < pairs ensures PairPacked(raw, values, k) {
      assert values[2 * k] == Unpacked(raw, 2 * k) && values[2 * k + 1] == Unpacked(raw, 2 * k + 1);
      assert 2 * k + 2 * k / 2 == 3 * k && 2 * k + 1 + (2 * k + 1) / 2 == 3 * k + 1;
      UnpackPair(raw[3 * k], raw[3 * k + 1], raw[3 * k + 2], values[2 * k], values[2 * k + 1]);
    }
  }

  /** The whole round trip through the two loops. */
  method DecodeEncoded(values: seq<Entry>, padding: seq<Byte>) returns (decoded: seq<Entry>)
    ensures decoded == values
  {
    var raw := EncodeFat(values);
    var image := raw + padding;
    assert StartsWithPacked(image, values) by {
      forall k: nat | k < (|values| + 1) / 2 ensures PairPacked(image, values, k) {
        assert PairPacked(raw, values, k);
      }
    }
    decoded := DecodeFat(image, |values|);
    forall i | 0 <= i < |values| ensures decoded[i] == values[i] {
      UnpackedPacked(image, values, i);
    }
  }

  // ----- _select_fat -----

  datatype Warning = FatCopiesCorrupt | FatCopyCorrupt | FatCopiesDisagree

  datatype Selection = Selection(fat: seq<Entry>, warnings: seq<Warning>)

  predicate HeaderValid(fat: seq<Entry>, mediaDescriptor: Byte) {
    |fat| >= 2 && fat[0] == 0xF00 + mediaDescriptor && fat[1] >= 0xFF8
  }

  /** Every copy, decoded. */
  ghost predicate AreDecoded(copies: seq<seq<Byte>>, count: nat, decoded: seq<seq<Entry>>) {
    && |decoded| == |copies|
    && forall j {:trigger decoded[j]} :: 0 <= j < |copies| ==>
        |decoded[j]| == count && forall i :: 0 <= i < count ==> decoded[j][i] == Unpacked(copies[j], i)
  }

  /** Copy `k` is the one that is used: the first with a valid header. */
  ghost predicate FirstValid(decoded: seq<seq<Entry>>, mediaDescriptor: Byte, k: nat) {
    && k < |decoded| && HeaderValid(decoded[k], mediaDescriptor)
    && forall j :: 0 <= j < k ==> !HeaderValid(decoded[j], mediaDescriptor)
  }

  /** Among the first `n` copies, one with a valid header has other contents than `fat`. */
  ghost predicate Disagrees(decoded: seq<seq<Entry>>, mediaDescriptor: Byte, n: nat, fat: seq<Entry>) {
    exists i :: 0 <= i < n && i < |decoded| && HeaderValid(decoded[i], mediaDescriptor) && decoded[i] != fat
  }

  method DecodeCopies(copies: seq<seq<Byte>>, count: nat) returns (decoded: seq<seq<Entry>>)
    ensures AreDecoded(copies, count, decoded)
  {
    decoded := [];
    for j := 0 to |copies|
      invariant AreDecoded(copies[..j], count, decoded)
    {
      var fat := DecodeFat(copies[j], count);
      decoded := decoded + [fat];
    }
    assert copies[..|copies|] == copies;
  }

  /** Uses the first copy with a valid header, and warns of the others. */
  method SelectFat(decoded: seq<seq<Entry>>, count: nat, mediaDescriptor: Byte) returns (s: Selection)
    requires forall j {:trigger decoded[j]} :: 0 <= j < |decoded| ==> |decoded[j]| == count
    ensures |s.fat| == count
    ensures forall k: nat :: FirstValid(decoded, mediaDescriptor, k) ==> s.fat == decoded[k]
    ensures s.warnings == [FatCopiesCorrupt] <==> forall j :: 0 <= j < |decoded| ==>
      !HeaderValid(decoded[j], mediaDescriptor)
    ensures s.warnings == [FatCopiesCorrupt] ==> forall i :: 0 <= i < count ==> s.fat[i] == 0
    ensures FatCopyCorrupt in s.warnings <==>
      (s.warnings != [FatCopiesCorrupt] && exists j :: 0 <= j < |decoded| && !HeaderValid(decoded[j], mediaDescriptor))
    ensures FatCopiesDisagree in s.warnings <==>
      (s.warnings != [FatCopiesCorrupt] && Disagrees(decoded, mediaDescriptor, |decoded|, s.fat))
  {
    var first: nat := |decoded|;
    var disagree, anyInvalid := false, false;
    for j := 0 to |decoded|
      invariant first == |decoded| ==> forall i :: 0 <= i < j ==> !HeaderValid(decoded[i], mediaDescriptor)
      invariant first < |decoded| ==> first < j && FirstValid(decoded, mediaDescriptor, first)
      invariant first <= |decoded|
      invariant anyInvalid <==> exists i :: 0 <= i < j && !HeaderValid(decoded[i], mediaDescriptor)
      invariant disagree <==> first < |decoded| && Disagrees(decoded, mediaDescriptor, j, decoded[first])
    {
      if HeaderValid(decoded[j], mediaDescriptor) {
        if first == |decoded| {
          first := j;
        } else if decoded[j] != decoded[first] {
          disagree := true;
        }
      } else {
        anyInvalid := true;
      }
    }
    if first == |decoded| {
      return Selection(seq(count, _ => 0), [FatCopiesCorrupt]);
    }
    s := Selection(decoded[first],
      (if anyInvalid then [FatCopyCorrupt] else []) + (if disagree then [FatCopiesDisagree] else []));
    assert FatCopiesCorrupt !in s.warnings && HeaderValid(decoded[first], mediaDescriptor);
    assert FatCopiesCorrupt in [FatCopiesCorrupt];
  }

  /** One intact copy is enough: a table whose copies before it lost their headers is read back unchanged. */
  method RecoverFromCopies(
    copies: seq<seq<Byte>>, mediaDescriptor: Byte, ghost k: nat, ghost values: seq<Entry>, count: nat)
    returns (s: Selection)
    requires k < |copies| && StartsWithPacked(copies[k], values) && HeaderValid(values, mediaDescriptor)
    requires count == |values|
    requires forall j {:trigger copies[j]} :: 0 <= j < k ==>
      !(Unpacked(copies[j], 0) == 0xF00 + mediaDescriptor && Unpacked(copies[j], 1) >= 0xFF8)
    ensures s.fat == values
  {
    var decoded := DecodeCopies(copies, count);
    forall i | 0 <= i < |values| ensures Unpacked(copies[k], i) == values[i] {
      UnpackedPacked(copies[k], values, i);
    }
    assert decoded[k] == values;
    forall j | 0 <= j < k ensures !HeaderValid(decoded[j], mediaDescriptor) {
      assert decoded[j][0] == Unpacked(copies[j], 0) && decoded[j][1] == Unpacked(copies[j], 1);
    }
    assert FirstValid(decoded, mediaDescriptor, k);
    s := SelectFat(decoded, count, mediaDescriptor);
  }
}
