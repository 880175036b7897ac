/**
  * What json.dumps with sort_keys makes of a payload, and what it makes of its own output once
  * json.loads has read it.
  */
module CanonicalJson {
  import opened Wrappers
  import opened TextOrder

  /** A dictionary key; in JSON text every key is text. */
  datatype Key = Number(n: int) | Text(s: string)

  /** A payload. `Foreign` is any object that JSON has no form for, `NotFinite` NaN or an infinity. */
  datatype Json =
    | Scalar(token: string)
    | NotFinite(token: string)
    | Foreign
    | List(items: Items)
    | Object(members: Members)

  datatype Items = NoItems | Item(head: Json, tail: Items)

  datatype Members = NoMembers | Member(key: Key, value: Json, rest: Members)

  // ----- Keys -----

  function Digits(n: nat): string {
    if n < 10 then [('0' as int + n) as char] else Digits(n / 10) + [('0' as int + n % 10) as char]
  }

  function KeyText(k: Key): string {
    match k
    case Text(s) => s
    case Number(n) => if n < 0 then "-" + Digits(-n) else Digits(n)
  }

  function NaturalValue(s: string): int {
    if s == "" then 0 else 10 * NaturalValue(s[..|s| - 1]) + (s[|s| - 1] as int - '0' as int)
  }

  lemma {:induction false} DigitsReadBack(n: nat)
    ensures Digits(n) != "" && NaturalValue(Digits(n)) == n
    ensures forall i :: 0 <= i < |Digits(n)| ==> '0' <= Digits(n)[i] <= '9'
    ensures |Digits(n)| > 1 ==> Digits(n)[0] != '0'
  {
    if n >= 10 {
      DigitsReadBack(n / 10);
      assert Digits(n)[..|Digits(n)| - 1] == Digits(n / 10);
      if |Digits(n / 10)| == 1 {
        assert NaturalValue(Digits(n / 10)) == Digits(n / 10)[0] as int - '0' as int by {
          assert Digits(n / 10)[..0] == "" && NaturalValue("") == 0;
        }
      }
    } else {
      assert Digits(n)[..0] == "" && NaturalValue("") == 0;
    }
  }

  /** An integer key is written as decimal text: a minus sign exactly for the negative, and the digits. */
  lemma NumberKeyText(n: int)
    ensures n >= 0 ==> KeyText(Number(n)) == Digits(n) && KeyText(Number(n))[0] != '-'
    ensures n < 0 ==> KeyText(Number(n)) == "-" + Digits(-n)
  {
    DigitsReadBack(if n >= 0 then n else -n);
  }

  /** Python's order on keys of one kind; keys of two kinds do not compare. */
  predicate AtMost(a: Key, b: Key) {
    match (a, b)
    case (Number(m), Number(n)) => m <= n
    case (Text(s), Text(t)) => !Less(t, s)
    case _ => false
  }

  function Keys(ms: Members): set<Key> {
    match ms
    case NoMembers => {}
    case Member(k, _, rest) => {k} + Keys(rest)
  }

  function Values(ms: Members): set<Json> {
    match ms
    case NoMembers => {}
    case Member(_, v, rest) => {v} + Values(rest)
  }

  predicate AllText(ms: Members) {
    forall k :: k in Keys(ms) ==> k.Text?
  }

  predicate AllNumbers(ms: Members) {
    forall k :: k in Keys(ms) ==> k.Number?
  }

  /** Otherwise sorting the keys raises a TypeError. */
  predicate OneKind(ms: Members) {
    AllText(ms) || AllNumbers(ms)
  }

  // ----- Sorting -----

  predicate KeysAscend(ms: Members) {
    ms.Member? && ms.rest.Member? ==> AtMost(ms.key, ms.rest.key) && KeysAscend(ms.rest)
  }

  function Insert(k: Key, v: Json, ms: Members): Members {
    if ms.NoMembers? || AtMost(k, ms.key) then Member(k, v, ms) else Member(ms.key, ms.value, Insert(k, v, ms.rest))
  }

  function Sort(ms: Members): Members {
    match ms
    case NoMembers => NoMembers
    case Member(k, v, rest) => Insert(k, v, Sort(rest))
  }

  /** Keys become text as they are written. */
  function Renamed(ms: Members): Members {
    match ms
    case NoMembers => NoMembers
    case Member(k, v, rest) => Member(Text(KeyText(k)), v, Renamed(rest))
  }

  // ----- Dumping -----

  /**
    * The document that json.dumps writes for a payload: its keys are text, in the order in which
    * they were sorted before they became text. `nan` is `allow_nan`.
    */
  function Dump(j: Json, nan: bool): Option<Json> {
    match j
    case Scalar(_) => Some(j)
    case NotFinite(_) => if nan then Some(j) else None
    case Foreign => None
    case List(items) => (
      match DumpItems(items, nan)
      case None => None
      case Some(written) => Some(List(written)))
    case Object(members) => (
      match DumpMembers(members, nan)
      case None => None
      case Some(written) => if OneKind(written) then Some(Object(Renamed(Sort(written)))) else None)
  }

  function DumpItems(items: Items, nan: bool): Option<Items> {
    match items
    case NoItems => Some(NoItems)
    case Item(head, tail) => (
      match (Dump(head, nan), DumpItems(tail, nan))
      case (Some(h), Some(t)) => Some(Item(h, t))
      case _ => None)
  }

  function DumpMembers(ms: Members, nan: bool): Option<Members> {
    match ms
    case NoMembers => Some(NoMembers)
    case Member(k, v, rest) => (
      match (Dump(v, nan), DumpMembers(rest, nan))
      case (Some(w), Some(r)) => Some(Member(k, w, r))
      case _ => None)
  }

  // ----- What dumping does -----

  /** JSON has a form for the payload, and every dictionary's keys can be sorted. */
  predicate Writable(j: Json, nan: bool) {
    match j
    case Scalar(_) => true
    case NotFinite(_) => nan
    case Foreign => false
    case List(items) => ItemsWritable(items, nan)
    case Object(members) => MembersWritable(members, nan) && OneKind(members)
  }

  predicate ItemsWritable(items: Items, nan: bool) {
    items.Item? ==> Writable(items.head, nan) && ItemsWritable(items.tail, nan)
  }

  predicate MembersWritable(ms: Members, nan: bool) {
    ms.Member? ==> Writable(ms.value, nan) && MembersWritable(ms.rest, nan)
  }

  /** A payload is refused exactly if it is not writable. */
  lemma {:induction false} DumpsIff(j: Json, nan: bool)
    ensures Dump(j, nan).Some? <==> Writable(j, nan)
  {
    match j
    case List(items) => ItemsDumpIff(items, nan);
    case Object(members) =>
      MembersDumpIff(members, nan);
      if DumpMembers(members, nan).Some? {
        DumpKeepsKeys(members, nan);
      }
    case _ =>
  }

  lemma {:induction false} ItemsDumpIff(items: Items, nan: bool)
    ensures DumpItems(items, nan).Some? <==> ItemsWritable(items, nan)
  {
    if items.Item? {
      DumpsIff(items.head, nan);
      ItemsDumpIff(items.tail, nan);
    }
  }

  lemma {:induction false} MembersDumpIff(ms: Members, nan: bool)
    ensures DumpMembers(ms, nan).Some? <==> MembersWritable(ms, nan)
  {
    if ms.Member? {
      DumpsIff(ms.value, nan);
      MembersDumpIff(ms.rest, nan);
    }
  }

  /** The entries of a dictionary, under their keys as text. */
  ghost function Entries(ms: Members): multiset<(string, Json)> {
    match ms
    case NoMembers => multiset{}
    case Member(k, v, rest) => multiset{(KeyText(k), v)} + Entries(rest)
  }

  /** The same with every value dumped. */
  ghost function DumpedEntries(ms: Members, nan: bool): multiset<(string, Json)> {
    match ms
    case NoMembers => multiset{}
    case Member(k, v, rest) =>
      (if Dump(v, nan).Some? then multiset{(KeyText(k), Dump(v, nan).value)} else multiset{}) + DumpedEntries(rest, nan)
  }

  /** A dictionary is written with all its entries, each under its key and with its value, in the order of the keys. */
  lemma ObjectKeepsEntries(ms: Members, nan: bool)
    requires Dump(Object(ms), nan).Some?
    ensures Dump(Object(ms), nan).value.Object?
    ensures Entries(Dump(Object(ms), nan).value.members) == DumpedEntries(ms, nan)
  {
    var written := DumpMembers(ms, nan).value;
    EntriesDumped(ms, nan);
    SortKeepsEntries(written);
    RenamedKeepsEntries(Sort(written));
  }

  lemma {:induction false} EntriesDumped(ms: Members, nan: bool)
    requires DumpMembers(ms, nan).Some?
    ensures Entries(DumpMembers(ms, nan).value) == DumpedEntries(ms, nan)
  {
    if ms.Member? {
      EntriesDumped(ms.rest, nan);
    }
  }

  lemma {:induction false} InsertKeepsEntries(k: Key, v: Json, ms: Members)
    ensures Entries(Insert(k, v, ms)) == multiset{(KeyText(k), v)} + Entries(ms)
  {
    if ms.Member? && !AtMost(k, ms.key) {
      InsertKeepsEntries(k, v, ms.rest);
    }
  }

  lemma {:induction false} SortKeepsEntries(ms: Members)
    ensures Entries(Sort(ms)) == Entries(ms)
  {
    if ms.Member? {
      SortKeepsEntries(ms.rest);
      InsertKeepsEntries(ms.key, ms.value, Sort(ms.rest));
    }
  }

  lemma {:induction false} RenamedKeepsEntries(ms: Members)
    ensures Entries(Renamed(ms)) == Entries(ms)
  {
    if ms.Member? {
      RenamedKeepsEntries(ms.rest);
    }
  }

  /** The elements of a list, in order. */
  function Elements(items: Items): seq<Json> {
    match items
    case NoItems => []
    case Item(head, tail) => [head] + Elements(tail)
  }

  /** A list is written element by element. */
  lemma {:induction false} ListKeepsElements(items: Items, nan: bool, i: nat)
    requires DumpItems(items, nan).Some?
    ensures |Elements(DumpItems(items, nan).value)| == |Elements(items)|
    ensures i < |Elements(items)| ==> Some(Elements(DumpItems(items, nan).value)[i]) == Dump(Elements(items)[i], nan)
  {
    if items.Item? {
      ListKeepsElements(items.tail, nan, if i > 0 then i - 1 else 0);
    }
  }

  // ----- Which payloads dump as their own output does -----

  /** No two integer keys change places when they are compared as text. */
  predicate NumbersKeepOrder(ms: Members) {
    forall a, b :: a in Keys(ms) && b in Keys(ms) && a.Number? && b.Number? && a.n < b.n ==>
      !Less(KeyText(b), KeyText(a))
  }

  /** So it is for every dictionary in the payload. */
  predicate KeysKeepOrder(j: Json) {
    match j
    case List(items) => ItemsKeepOrder(items)
    case Object(members) => NumbersKeepOrder(members) && ValuesKeepOrder(members)
    case _ => true
  }

  predicate ItemsKeepOrder(items: Items) {
    items.Item? ==> KeysKeepOrder(items.head) && ItemsKeepOrder(items.tail)
  }

  predicate ValuesKeepOrder(ms: Members) {
    ms.Member? ==> KeysKeepOrder(ms.value) && ValuesKeepOrder(ms.rest)
  }

  lemma {:induction false} InsertKeeps(k: Key, v: Json, ms: Members)
    ensures Keys(Insert(k, v, ms)) == {k} + Keys(ms)
    ensures Values(Insert(k, v, ms)) == {v} + Values(ms)
  {
    if ms.Member? && !AtMost(k, ms.key) {
      InsertKeeps(k, v, ms.rest);
    }
  }

  lemma {:induction false} SortKeeps(ms: Members)
    ensures Keys(Sort(ms)) == Keys(ms)
    ensures Values(Sort(ms)) == Values(ms)
  {
    if ms.Member? {
      SortKeeps(ms.rest);
      InsertKeeps(ms.key, ms.value, Sort(ms.rest));
    }
  }

  lemma OneKindCompares(a: Key, b: Key)
    requires a.Text? <==> b.Text?
    ensures AtMost(a, b) || AtMost(b, a)
  {
    if a.Text? && Less(a.s, b.s) && Less(b.s, a.s) {
      LessAsymmetric(a.s, b.s);
    }
  }

  lemma {:induction false} InsertAscends(k: Key, v: Json, ms: Members)
    requires KeysAscend(ms) && OneKind(Member(k, v, ms))
    ensures KeysAscend(Insert(k, v, ms))
  {
    if ms.Member? && !AtMost(k, ms.key) {
      assert ms.key in Keys(Member(k, v, ms)) && k in Keys(Member(k, v, ms));
      OneKindCompares(k, ms.key);
      assert Keys(Member(k, v, ms.rest)) <= Keys(Member(k, v, ms));
      InsertAscends(k, v, ms.rest);
    }
  }

  lemma {:induction false} SortAscends(ms: Members)
    requires OneKind(ms)
    ensures KeysAscend(Sort(ms))
  {
    if ms.Member? {
      assert Keys(ms.rest) <= Keys(ms);
      SortAscends(ms.rest);
      SortKeeps(ms.rest);
      assert Keys(Member(ms.key, ms.value, Sort(ms.rest))) == Keys(ms);
      InsertAscends(ms.key, ms.value, Sort(ms.rest));
    }
  }

  lemma {:induction false} SortOfAscending(ms: Members)
    requires KeysAscend(ms)
    ensures Sort(ms) == ms
  {
    if ms.Member? {
      SortOfAscending(ms.rest);
    }
  }

  lemma {:induction false} RenamedKeeps(ms: Members)
    ensures Values(Renamed(ms)) == Values(ms) && AllText(Renamed(ms))
    ensures AllText(ms) ==> Renamed(ms) == ms
  {
    if ms.Member? {
      RenamedKeeps(ms.rest);
      assert ms.key in Keys(ms);
    }
  }

  ghost predicate AllDump(values: set<Json>, nan: bool) {
    forall v :: v in values ==> Dump(v, nan).Some?
  }

  ghost predicate AllFixed(values: set<Json>, nan: bool) {
    forall v :: v in values ==> Dump(v, nan) == Some(v)
  }

  /** Dumping goes value by value. */
  lemma {:induction false} DumpsByValue(ms: Members, nan: bool)
    ensures DumpMembers(ms, nan).Some? <==> AllDump(Values(ms), nan)
    ensures DumpMembers(ms, nan) == Some(ms) <==> AllFixed(Values(ms), nan)
  {
    if ms.Member? {
      DumpsByValue(ms.rest, nan);
      assert ms.value in Values(ms) && Values(ms.rest) <= Values(ms);
      assert forall v :: v in Values(ms) ==> v == ms.value || v in Values(ms.rest);
    }
  }

  /** It leaves the keys where they are. */
  lemma {:induction false} DumpKeepsKeys(ms: Members, nan: bool)
    requires DumpMembers(ms, nan).Some?
    ensures Keys(DumpMembers(ms, nan).value) == Keys(ms)
    ensures KeysAscend(DumpMembers(ms, nan).value) <==> KeysAscend(ms)
  {
    if ms.Member? {
      DumpKeepsKeys(ms.rest, nan);
    }
  }

  lemma TextAtMostTransitive(a: string, b: string, c: string)
    requires !Less(b, a) && !Less(c, b)
    ensures !Less(c, a)
  {
    if Less(c, a) {
      LessTotal(a, b);
      LessTotal(b, c);
      if Less(a, b) {
        LessTransitive(c, a, b);
      }
    }
  }

  /** No key of the rest is written before the first. */
  lemma {:induction false} FirstIsLeast(ms: Members, k: Key)
    requires ms.Member? && KeysAscend(ms) && k in Keys(ms.rest)
    ensures AllText(ms) ==> AtMost(ms.key, k)
    ensures AllNumbers(ms) ==> AtMost(ms.key, k)
  {
    assert ms.key in Keys(ms) && ms.rest.key in Keys(ms) && Keys(ms.rest) <= Keys(ms) && k in Keys(ms);
    if k in Keys(ms.rest.rest) {
      FirstIsLeast(ms.rest, k);
      if AllText(ms) {
        TextAtMostTransitive(ms.key.s, ms.rest.key.s, k.s);
      }
    } else {
      assert k == ms.rest.key;
    }
  }

  lemma {:induction false} RenamedHasKey(ms: Members, k: Key)
    requires k in Keys(ms)
    ensures Text(KeyText(k)) in Keys(Renamed(ms))
  {
    if k != ms.key {
      RenamedHasKey(ms.rest, k);
    }
  }

  /** Sorted numbers stay sorted as text exactly when no two of them change places. */
  lemma {:induction false} RenamedAscendsIff(ms: Members)
    requires KeysAscend(ms) && AllNumbers(ms)
    ensures KeysAscend(Renamed(ms)) <==> NumbersKeepOrder(ms)
  {
    if ms.Member? {
      assert Keys(ms.rest) <= Keys(ms);
      RenamedAscendsIff(ms.rest);
      if KeysAscend(Renamed(ms)) {
        forall a, b | a in Keys(ms) && b in Keys(ms) && a.n < b.n ensures !Less(KeyText(b), KeyText(a)) {
          FirstPairKept(ms, a, b);
        }
      }
      if NumbersKeepOrder(ms) && ms.rest.Member? {
        assert ms.key in Keys(ms) && ms.rest.key in Keys(ms);
        LessIrreflexive(KeyText(ms.key));
      }
    }
  }

  lemma FirstPairKept(ms: Members, a: Key, b: Key)
    requires ms.Member? && KeysAscend(ms) && AllNumbers(ms) && a in Keys(ms) && b in Keys(ms) && a.n < b.n
    requires KeysAscend(Renamed(ms)) && NumbersKeepOrder(ms.rest)
    ensures !Less(KeyText(b), KeyText(a))
  {
    if b !in Keys(ms.rest) {
      FirstIsLeast(ms, a);
    } else if a == ms.key {
      RenamedHasKey(ms.rest, b);
      RenamedKeeps(ms);
      FirstIsLeast(Renamed(ms), Text(KeyText(b)));
    }
  }

  lemma SortedRenamedAscendsIff(ms: Members)
    requires OneKind(ms)
    ensures KeysAscend(Renamed(Sort(ms))) <==> NumbersKeepOrder(ms)
  {
    SortAscends(ms);
    SortKeeps(ms);
    if AllText(ms) {
      RenamedKeeps(Sort(ms));
    } else {
      RenamedAscendsIff(Sort(ms));
    }
  }

  /** Members with text keys dump as themselves exactly when they ascend and their values do so too. */
  lemma RedumpObjectIff(ms: Members, nan: bool)
    requires AllText(ms) && DumpMembers(ms, nan).Some?
    ensures Dump(Object(ms), nan).Some?
    ensures Dump(Object(ms), nan) == Some(Object(ms)) <==> DumpMembers(ms, nan) == Some(ms) && KeysAscend(ms)
  {
    var written := DumpMembers(ms, nan).value;
    DumpKeepsKeys(ms, nan);
    SortAscends(written);
    SortKeeps(written);
    RenamedKeeps(Sort(written));
    if KeysAscend(ms) {
      SortOfAscending(written);
    }
  }

  /**
    * A document that json.dumps wrote can always be dumped again, and comes out the same if and
    * only if in no dictionary of the payload two integer keys change places as text.
    */
  lemma {:induction false} RedumpIff(j: Json, nan: bool)
    requires Dump(j, nan).Some?
    ensures Dump(Dump(j, nan).value, nan).Some?
    ensures Dump(Dump(j, nan).value, nan) == Dump(j, nan) <==> KeysKeepOrder(j)
  {
    match j
    case List(items) => RedumpItemsIff(items, nan);
    case Object(members) =>
      RedumpMembersIff(members, nan);
      var written := DumpMembers(members, nan).value;
      var sorted := Renamed(Sort(written));
      SortKeeps(written);
      RenamedKeeps(Sort(written));
      DumpKeepsKeys(members, nan);
      DumpsByValue(written, nan);
      DumpsByValue(sorted, nan);
      SortedRenamedAscendsIff(written);
      RedumpObjectIff(sorted, nan);
    case _ =>
  }

  lemma {:induction false} RedumpItemsIff(items: Items, nan: bool)
    requires DumpItems(items, nan).Some?
    ensures DumpItems(DumpItems(items, nan).value, nan).Some?
    ensures DumpItems(DumpItems(items, nan).value, nan) == DumpItems(items, nan) <==> ItemsKeepOrder(items)
  {
    if items.Item? {
      RedumpIff(items.head, nan);
      RedumpItemsIff(items.tail, nan);
    }
  }

  lemma {:induction false} RedumpMembersIff(ms: Members, nan: bool)
    requires DumpMembers(ms, nan).Some?
    ensures DumpMembers(DumpMembers(ms, nan).value, nan).Some?
    ensures DumpMembers(DumpMembers(ms, nan).value, nan) == DumpMembers(ms, nan) <==> ValuesKeepOrder(ms)
  {
    if ms.Member? {
      RedumpIff(ms.value, nan);
      RedumpMembersIff(ms.rest, nan);
    }
  }
}
