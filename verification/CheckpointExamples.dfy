/** A checkpoint of the supported version that is saved and then refused, with libraries made explicit. */
module CheckpointExamples {
  import opened Collections
  import opened Wrappers
  import opened Bytes
  import opened CanonicalJson
  import opened TextOrder
  import opened Checkpoints

  /** Three bytes a character: injective, as UTF-8 is. */
  function Encoded(s: string): (bytes: seq<Byte>)
    ensures |bytes| == 3 * |s|
  {
    if s == "" then [] else BigEndian(s[0] as nat, 3) + Encoded(s[1..])
  }

  lemma {:induction false} EncodedIsInjective(a: string, b: string)
    requires Encoded(a) == Encoded(b)
    ensures a == b
  {
    if a != "" {
      SamePrefix(BigEndian(a[0] as nat, 3), BigEndian(b[0] as nat, 3), Encoded(a[1..]), Encoded(b[1..]));
      assert Power256(3) == 0x100_0000 by {
        assert Power256(1) == 256 && Power256(2) == 0x1_0000;
      }
      BigEndianIsInjective(a[0] as nat, b[0] as nat, 3);
      EncodedIsInjective(a[1..], b[1..]);
      assert a == [a[0]] + a[1..] && b == [b[0]] + b[1..];
    }
  }

  /** The bytes read as a number in base 257: a digest without collisions. */
  function Collected(bytes: seq<Byte>): Digest {
    if bytes == [] then 0 else 257 * Collected(bytes[1..]) + bytes[0] + 1
  }

  lemma {:induction false} CollectedIsInjective(a: seq<Byte>, b: seq<Byte>)
    requires Collected(a) == Collected(b)
    ensures a == b
    decreases |a|
  {
    if a != [] && b != [] {
      CollectedIsInjective(a[1..], b[1..]);
      assert a == [a[0]] + a[1..] && b == [b[0]] + b[1..];
    }
  }

  function One(key: Key, value: Json): Json {
    Object(Member(key, value, NoMembers))
  }

  function Two(key: Key, value: Json, other: Key, otherValue: Json): Json {
    Object(Member(key, value, Member(other, otherValue, NoMembers)))
  }

  /** `{10: 2, 2: 1}`, and the two documents it is written as. */
  function Inner(): Json {
    Two(Number(10), Scalar("2"), Number(2), Scalar("1"))
  }

  function InnerWritten(): Json {
    Two(Text("2"), Scalar("1"), Text("10"), Scalar("2"))
  }

  function InnerRewritten(): Json {
    Two(Text("10"), Scalar("2"), Text("2"), Scalar("1"))
  }

  function Cursor(): Json {
    One(Text("o"), Inner())
  }

  function Written(): Json {
    One(Text("o"), InnerWritten())
  }

  function Rewritten(): Json {
    One(Text("o"), InnerRewritten())
  }

  function Counters(): Json {
    Object(NoMembers)
  }

  /** The compact text of these documents, and what it parses to. */
  function Compact(j: Json): string {
    if j == Counters() then "{}"
    else if j == Written() then "{\"o\":{\"2\":1,\"10\":2}}"
    else "{\"o\":{\"10\":2,\"2\":1}}"
  }

  function Parsed(s: string): Option<Json> {
    if s == Compact(Counters()) then Some(Counters())
    else if s == Compact(Written()) then Some(Written())
    else Some(Rewritten())
  }

  function Libraries(): Codec {
    Codec(Encoded, Collected, Compact, Parsed, _ => None)
  }

  lemma LibrariesAreInjective()
    ensures InjectiveCodec(Libraries())
  {
    forall a, b {:trigger Libraries().utf8(a), Libraries().utf8(b)} | Encoded(a) == Encoded(b) ensures a == b {
      EncodedIsInjective(a, b);
    }
    forall a, b {:trigger Libraries().sha256(a), Libraries().sha256(b)} | Collected(a) == Collected(b) ensures a == b {
      CollectedIsInjective(a, b);
    }
  }

  function Repeated(n: nat): (s: string)
    ensures |s| == n && forall i :: 0 <= i < n ==> s[i] == '0'
  {
    seq(n, _ => '0')
  }

  function Example(): Checkpoint {
    Checkpoint(Repeated(64), "scan", 1, "tool", "1", Cursor(), Counters(), [])
  }

  /** Sorted as numbers 2 comes before 10, as text after it. */
  lemma NumbersChangePlaces()
    ensures KeyText(Number(2)) == "2" && KeyText(Number(10)) == "10" && Less("10", "2") && !Less("2", "10")
    ensures Dump(Inner(), false) == Some(InnerWritten())
    ensures Dump(InnerWritten(), false) == Some(InnerRewritten())
  {
    assert Digits(10) == Digits(1) + ['0'];
  }

  lemma DumpOfOne(value: Json, written: Json)
    requires Dump(value, false) == Some(written)
    ensures Dump(One(Text("o"), value), false) == Some(One(Text("o"), written))
  {
    var ms, ws := Member(Text("o"), value, NoMembers), Member(Text("o"), written, NoMembers);
    assert DumpMembers(ms, false) == Some(ws) by {
      assert DumpMembers(NoMembers, false) == Some(NoMembers);
    }
    assert Keys(ws) == {Text("o")};
    assert Sort(ws) == ws && Renamed(ws) == ws by {
      assert Sort(NoMembers) == NoMembers && Renamed(NoMembers) == NoMembers;
    }
  }

  /** The cursor is written with 2 first, and its text, parsed, with 10 first. */
  lemma CursorIsRewritten()
    ensures Dump(Cursor(), false) == Some(Written()) && Dump(Written(), false) == Some(Rewritten())
  {
    NumbersChangePlaces();
    DumpOfOne(Inner(), InnerWritten());
    DumpOfOne(InnerWritten(), InnerRewritten());
  }

  lemma TextsDiffer()
    ensures Compact(Counters()) == "{}" && Compact(Written()) == "{\"o\":{\"2\":1,\"10\":2}}"
    ensures Compact(Rewritten()) == "{\"o\":{\"10\":2,\"2\":1}}"
    ensures Compact(Written()) != Compact(Rewritten())
  {
    assert Compact(Written())[7] != Compact(Rewritten())[7];
  }

  lemma FramedExamples()
    ensures var f := Framed(Libraries(), Example(), false);
      && f.Some? && Record(Libraries(), f.value) == Some(Example().(cursor := Written()))
      && Reframed(Libraries(), f.value, false) == Some(f.value.(cursor := Compact(Rewritten())))
      && f.value.cursor == Compact(Written()) && f.value.counters == "{}"
  {
    CursorIsRewritten();
    TextsDiffer();
    assert Dump(Counters(), false) == Some(Counters());
  }

  lemma ShortIsFramable(bytes: seq<Byte>)
    requires |bytes| < 0x1_0000
    ensures Framable(bytes)
  {
    assert Power256(2) == 0x1_0000 by {
      assert Power256(1) == 256;
    }
    assert Power256(8) >= Power256(2) by {
      assert Power256(3) >= Power256(2) && Power256(4) >= Power256(3) && Power256(5) >= Power256(4);
      assert Power256(6) >= Power256(5) && Power256(7) >= Power256(6);
    }
  }

  /** Fields this short can be framed. */
  lemma ShortFieldsAreFramable(f: Fields)
    requires |f.fingerprint| <= 100 && |f.stage| <= 100 && |f.toolName| <= 100 && |f.toolVersion| <= 100
    requires |f.cursor| <= 100 && |f.counters| <= 100 && |f.blob| <= 100 && f.version < 10
    ensures FieldsFramable(Libraries(), f)
  {
    EncodedIsShort(f.fingerprint);
    EncodedIsShort(f.stage);
    EncodedIsShort(f.toolName);
    EncodedIsShort(f.toolVersion);
    EncodedIsShort(f.cursor);
    EncodedIsShort(f.counters);
    ShortIsFramable(Decimal(f.version));
    ShortIsFramable(f.blob);
    FramableOneByOne(Libraries(), f);
  }

  lemma FramableOneByOne(c: Codec, f: Fields)
    requires Framable(c.utf8(f.fingerprint)) && Framable(c.utf8(f.stage)) && Framable(Decimal(f.version))
    requires Framable(c.utf8(f.toolName)) && Framable(c.utf8(f.toolVersion)) && Framable(c.utf8(f.cursor))
    requires Framable(c.utf8(f.counters)) && Framable(f.blob)
    ensures FieldsFramable(c, f)
  {
    forall i | 0 <= i < 8 ensures Framable(FramedValues(c, f)[i]) {
    }
  }

  lemma EncodedIsShort(s: string)
    requires |s| <= 100
    ensures Framable(Libraries().utf8(s))
  {
    ShortIsFramable(Encoded(s));
  }

  lemma ExampleIsFramable()
    ensures var f := Framed(Libraries(), Example(), false);
      f.Some? && FieldsFramable(Libraries(), f.value) && LoadFramable(Libraries(), f.value, false)
  {
    FramedExamples();
    TextsDiffer();
    var f := Framed(Libraries(), Example(), false).value;
    ShortFieldsAreFramable(f);
    ShortFieldsAreFramable(f.(cursor := Compact(Rewritten())));
  }

  lemma ExampleIsValid()
    ensures ValidInputs(Example())
  {
  }

  /** The save succeeds with version 1; the load refuses the checkpoint. */
  method SavedAndRefused() returns (r: Result<Checkpoint, LoadError>)
    ensures Example().version == SUPPORTED_CHECKPOINT_VERSION && r == Err(IntegrityMismatch)
  {
    LibrariesAreInjective();
    FramedExamples();
    TextsDiffer();
    ExampleIsFramable();
    ExampleIsValid();
    var store := new CheckpointStore(Libraries(), {0});
    r := SaveThenLoad(store, 0, 0, Example(), 0);
  }
}
