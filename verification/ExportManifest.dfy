/** worker/export_manifest.py: destination paths, when they are safe, and when one lies below another. */
module ExportManifest {
  import opened Bytes

  const MAX_LOCAL_PATH_BYTES: nat := 4096
  const MAX_REMOTE_PATH_BYTES: nat := 1024
  const REPLACEMENT: char := '\U{FFFD}'

  const RESERVED_WINDOWS_NAMES: set<string> := {
    "CON", "PRN", "AUX", "NUL",
    "COM1", "COM2", "COM3", "COM4", "COM5", "COM6", "COM7", "COM8", "COM9",
    "LPT1", "LPT2", "LPT3", "LPT4", "LPT5", "LPT6", "LPT7", "LPT8", "LPT9"}

  /** What Unicode says of characters: upper case, white space, and the length and cut of UTF-8 text. */
  datatype Unicode = Unicode(upper: char -> string, isSpace: char -> bool, utf8Length: string -> nat,
    truncate: (string, nat) -> string)

  /** Upper case leaves the digits and the underscore of a collision suffix alone. */
  ghost predicate KeepsSuffixes(u: Unicode) {
    forall ch {:trigger u.upper(ch)} :: ch == '_' || '0' <= ch <= '9' ==> u.upper(ch) == [ch]
  }

  function Upper(u: Unicode, s: string): string {
    if s == "" then "" else Upper(u, s[..|s| - 1]) + u.upper(s[|s| - 1])
  }

  lemma {:induction false} UpperConcat(u: Unicode, a: string, b: string)
    ensures Upper(u, a + b) == Upper(u, a) + Upper(u, b)
    decreases |b|
  {
    if b == "" {
      assert a + b == a;
    } else {
      UpperConcat(u, a, b[..|b| - 1]);
      assert (a + b)[..|a + b| - 1] == a + b[..|b| - 1];
    }
  }

  /** A collision suffix: nothing, or underscores and digits. */
  ghost predicate IsSuffix(s: string) {
    forall i :: 0 <= i < |s| ==> s[i] == '_' || '0' <= s[i] <= '9'
  }

  lemma UpperOfSuffix(u: Unicode, s: string)
    requires KeepsSuffixes(u) && IsSuffix(s)
    ensures Upper(u, s) == s
  {
    UpperOneByOne(u, s, s);
  }

  lemma {:induction false} UpperOneByOne(u: Unicode, s: string, t: string)
    requires |t| == |s| && forall i :: 0 <= i < |s| ==> u.upper(s[i]) == [t[i]]
    ensures Upper(u, s) == t
    decreases |s|
  {
    if s != "" {
      UpperOneByOne(u, s[..|s| - 1], t[..|s| - 1]);
      assert t == t[..|s| - 1] + [t[|s| - 1]];
    }
  }

  // ----- Collision suffixes -----

  /** `str(n)` */
  function Numeral(n: nat): (digits: string)
    ensures |digits| == |Decimal(n)|
    ensures forall i :: 0 <= i < |digits| ==> '0' <= digits[i] <= '9'
  {
    DecimalIsDigits(n);
    seq(|Decimal(n)|, i requires 0 <= i < |Decimal(n)| => Decimal(n)[i] as char)
  }

  lemma {:induction false} DecimalIsDigits(n: nat)
    ensures forall i :: 0 <= i < |Decimal(n)| ==> 48 <= Decimal(n)[i] <= 57
  {
    if n >= 10 {
      DecimalIsDigits(n / 10);
    }
  }

  lemma NumeralIsInjective(m: nat, n: nat)
    requires Numeral(m) == Numeral(n)
    ensures m == n
  {
    forall i | 0 <= i < |Decimal(m)| ensures Decimal(m)[i] == Decimal(n)[i] {
      assert Numeral(m)[i] == Numeral(n)[i];
    }
    assert Decimal(m) == Decimal(n);
    DecimalReadsBack(m);
    DecimalReadsBack(n);
  }

  /** `_key` */
  function Key(u: Unicode, value: string, caseInsensitive: bool): string {
    if caseInsensitive then Upper(u, value) else value
  }

  /** The name itself, then `name__1`, `name__2`, … */
  function Candidate(relative: string, counter: nat): string {
    if counter == 0 then relative else relative + "__" + Numeral(counter)
  }

  lemma CandidateKeysDiffer(u: Unicode, relative: string, caseInsensitive: bool, m: nat, n: nat)
    requires KeepsSuffixes(u) && m < n
    ensures Key(u, Candidate(relative, m), caseInsensitive) != Key(u, Candidate(relative, n), caseInsensitive)
  {
    KeyOfCandidate(u, relative, caseInsensitive, m);
    KeyOfCandidate(u, relative, caseInsensitive, n);
    if Key(u, Candidate(relative, m), caseInsensitive) == Key(u, Candidate(relative, n), caseInsensitive) {
      SameTail(Key(u, relative, caseInsensitive), Suffix(m), Suffix(n));
      SuffixIsInjective(m, n);
    }
  }

  lemma SameTail(base: string, a: string, b: string)
    requires base + a == base + b
    ensures a == b
  {
    assert (base + a)[|base|..] == a && (base + b)[|base|..] == b;
  }

  function Suffix(counter: nat): string {
    if counter == 0 then "" else "__" + Numeral(counter)
  }

  lemma SuffixIsInjective(m: nat, n: nat)
    requires Suffix(m) == Suffix(n)
    ensures m == n
  {
    if m > 0 && n > 0 {
      assert Suffix(m)[2..] == Numeral(m) && Suffix(n)[2..] == Numeral(n);
      NumeralIsInjective(m, n);
    }
  }

  lemma KeyOfCandidate(u: Unicode, relative: string, caseInsensitive: bool, n: nat)
    requires KeepsSuffixes(u)
    ensures Key(u, Candidate(relative, n), caseInsensitive) == Key(u, relative, caseInsensitive) + Suffix(n)
  {
    CandidateIsSuffixed(relative, n);
    if caseInsensitive {
      SuffixIsPlain(n);
      UpperConcat(u, relative, Suffix(n));
      UpperOfSuffix(u, Suffix(n));
    }
  }

  lemma SuffixIsPlain(n: nat)
    ensures IsSuffix(Suffix(n))
  {
    if n > 0 {
      forall i | 0 <= i < |Suffix(n)| ensures Suffix(n)[i] == '_' || '0' <= Suffix(n)[i] <= '9' {
        assert i >= 2 ==> Suffix(n)[i] == Numeral(n)[i - 2];
      }
    }
  }

  lemma CandidateIsSuffixed(relative: string, n: nat)
    ensures Candidate(relative, n) == relative + Suffix(n)
  {
    if n > 0 {
      RegroupText(relative, "__", Numeral(n));
    }
  }

  // ----- `_unique` -----

  predicate Taken(u: Unicode, relative: string, used: set<string>, caseInsensitive: bool, counter: nat) {
    Key(u, Candidate(relative, counter), caseInsensitive) in used
  }

  /** The first candidate whose key is not used. */
  ghost predicate IsUnique(u: Unicode, relative: string, used: set<string>, caseInsensitive: bool, final: string) {
    exists counter: nat ::
      && final == Candidate(relative, counter) && !Taken(u, relative, used, caseInsensitive, counter)
      && forall n: nat :: n < counter ==> Taken(u, relative, used, caseInsensitive, n)
  }

  /** Candidates whose keys are all used are no more than there are used keys. */
  lemma {:induction false} TakenAreFew(u: Unicode, relative: string, used: set<string>, caseInsensitive: bool, n: nat)
    requires KeepsSuffixes(u) && forall i: nat :: i < n ==> Taken(u, relative, used, caseInsensitive, i)
    ensures n <= |used|
    decreases n
  {
    if n > 0 {
      var key := Key(u, Candidate(relative, n - 1), caseInsensitive);
      assert Taken(u, relative, used, caseInsensitive, n - 1);
      forall i: nat | i < n - 1 ensures Taken(u, relative, used - {key}, caseInsensitive, i) {
        assert Taken(u, relative, used, caseInsensitive, i);
        CandidateKeysDiffer(u, relative, caseInsensitive, i, n - 1);
      }
      TakenAreFew(u, relative, used - {key}, caseInsensitive, n - 1);
    }
  }

  /** `_unique`: the renaming ends, after at most as many attempts as there are used keys. */
  method Unique(u: Unicode, relative: string, used: set<string>, caseInsensitive: bool) returns (candidate: string)
    requires KeepsSuffixes(u)
    ensures IsUnique(u, relative, used, caseInsensitive, candidate)
    ensures Key(u, candidate, caseInsensitive) !in used
  {
    candidate := relative;
    var counter := 1;
    while Key(u, candidate, caseInsensitive) in used
      invariant counter >= 1 && candidate == Candidate(relative, counter - 1)
      invariant forall n: nat :: n < counter - 1 ==> Taken(u, relative, used, caseInsensitive, n)
      invariant counter - 1 <= |used|
      decreases |used| + 1 - counter
    {
      assert Taken(u, relative, used, caseInsensitive, counter - 1);
      TakenAreFew(u, relative, used, caseInsensitive, counter);
      candidate := Candidate(relative, counter);
      counter := counter + 1;
    }
    assert !Taken(u, relative, used, caseInsensitive, counter - 1);
  }

  // ----- Safe relative paths -----

  predicate IsSeparator(ch: char) {
    ch == '/' || ch == '\\'
  }

  predicate NoSeparator(s: string) {
    forall i :: 0 <= i < |s| ==> !IsSeparator(s[i])
  }

  /** How many characters come before the first separator. */
  function RunLength(s: string): (n: nat)
    ensures n <= |s| && NoSeparator(s[..n]) && (n < |s| ==> IsSeparator(s[n]))
    ensures s != "" && !IsSeparator(s[0]) ==> n > 0
  {
    if s == "" || IsSeparator(s[0]) then 0 else 1 + RunLength(s[1..])
  }

  /** The non-empty parts of a path between its separators. */
  function Runs(s: string): (parts: seq<string>)
    ensures forall p :: p in parts ==> p != "" && NoSeparator(p)
    decreases |s|
  {
    if s == "" then []
    else if IsSeparator(s[0]) then Runs(s[1..])
    else [s[..RunLength(s)]] + Runs(s[RunLength(s)..])
  }

  predicate IsControl(ch: char) {
    ch as int < 32 || ch == '\U{007F}'
  }

  function Replaced(name: string): (s: string)
    ensures |s| == |name|
    ensures forall i :: 0 <= i < |s| ==>
      s[i] == if name[i] as int < 32 || name[i] as int == 127 then '\U{FFFD}' else name[i]
  {
    seq(|name|, i requires 0 <= i < |name| => if IsControl(name[i]) then REPLACEMENT else name[i])
  }

  function StripRight(s: string, drop: char -> bool): (t: string)
    ensures |t| <= |s| && t == s[..|t|] && (t != "" ==> !drop(t[|t| - 1]))
  {
    if s != "" && drop(s[|s| - 1]) then StripRight(s[..|s| - 1], drop) else s
  }

  function StripLeft(s: string, drop: char -> bool): (t: string)
    ensures |t| <= |s| && t == s[|s| - |t|..]
  {
    if s != "" && drop(s[0]) then StripLeft(s[1..], drop) else s
  }

  /** Stripping takes away just what it is told to, up to the first character that stays. */
  lemma {:induction false} StripLeftDrops(s: string, drop: char -> bool)
    ensures var t := StripLeft(s, drop);
      (t != "" ==> !drop(t[0])) && forall i :: 0 <= i < |s| - |t| ==> drop(s[i])
  {
    if s != "" && drop(s[0]) {
      StripLeftDrops(s[1..], drop);
      assert forall i :: 1 <= i < |s| - |StripLeft(s, drop)| ==> s[i] == s[1..][i - 1];
    }
  }

  lemma {:induction false} StripRightDrops(s: string, drop: char -> bool)
    ensures forall i :: |StripRight(s, drop)| <= i < |s| ==> drop(s[i])
    decreases |s|
  {
    if s != "" && drop(s[|s| - 1]) {
      StripRightDrops(s[..|s| - 1], drop);
      assert forall i :: 0 <= i < |s| - 1 ==> s[i] == s[..|s| - 1][i];
    }
  }

  predicate IsDot(ch: char) {
    ch == '.'
  }

  /** `name.strip().rstrip(".")` of the cleaned characters. */
  function Trimmed(u: Unicode, name: string): string {
    StripRight(StripRight(StripLeft(Replaced(name), u.isSpace), u.isSpace), IsDot)
  }

  function BeforeDot(s: string): string {
    if s == "" || s[0] == '.' then "" else [s[0]] + BeforeDot(s[1..])
  }

  function Cleaned(u: Unicode, name: string): string {
    if Trimmed(u, name) == "" then "unnamed" else Trimmed(u, name)
  }

  predicate IsReserved(u: Unicode, name: string) {
    BeforeDot(Upper(u, name)) in RESERVED_WINDOWS_NAMES
  }

  /** `sanitize_component`, its name. */
  function SanitizeComponent(u: Unicode, name: string): string {
    var cleaned := Cleaned(u, name);
    if IsReserved(u, cleaned) then "_" + cleaned else cleaned
  }

  /** A component that names something below its directory, and is no more than one component. */
  ghost predicate SafeComponent(name: string) {
    name != "" && Clean(name) && name[|name| - 1] != '.'
  }

  lemma SanitizedIsSafe(u: Unicode, name: string)
    requires NoSeparator(name)
    ensures SafeComponent(SanitizeComponent(u, name))
  {
    CleanedIsSafe(u, name);
    PrefixedIsSafe(Cleaned(u, name));
  }

  /** A name in which nothing is to be replaced or stripped, and that is not reserved, stays as it is. */
  lemma OrdinaryNameStays(u: Unicode, name: string)
    requires name != "" && forall i :: 0 <= i < |name| ==> 32 <= name[i] as int != 127
    requires !u.isSpace(name[0]) && !u.isSpace(name[|name| - 1]) && name[|name| - 1] != '.' && !IsReserved(u, name)
    ensures SanitizeComponent(u, name) == name
  {
    assert Replaced(name) == name;
    NothingToStrip(name, u.isSpace);
    NothingToStripRight(name, IsDot);
  }

  lemma NothingToStrip(s: string, drop: char -> bool)
    requires s != "" && !drop(s[0]) && !drop(s[|s| - 1])
    ensures StripLeft(s, drop) == s && StripRight(s, drop) == s
  {
  }

  lemma NothingToStripRight(s: string, drop: char -> bool)
    requires s != "" && !drop(s[|s| - 1])
    ensures StripRight(s, drop) == s
  {
  }

  /** A name of which stripping leaves nothing is called unnamed. */
  lemma BlankNameIsUnnamed(u: Unicode, name: string)
    requires forall i :: 0 <= i < |name| ==> !IsControl(name[i]) && u.isSpace(name[i])
    ensures Cleaned(u, name) == "unnamed"
  {
    assert Replaced(name) == name;
    StripLeftDrops(name, u.isSpace);
  }

  lemma {:induction false} BeforeDotStops(stem: string, rest: string)
    requires '.' !in stem
    ensures BeforeDot(stem + ("." + rest)) == stem
  {
    if stem == "" {
      assert stem + ("." + rest) == "." + rest;
    } else {
      BeforeDotStops(stem[1..], rest);
      assert (stem + ("." + rest))[1..] == stem[1..] + ("." + rest);
    }
  }

  /** A reserved device name is reserved with any extension and in any case, and gets an underscore in front. */
  lemma ReservedWithAnyExtension(u: Unicode, stem: string, extension: string)
    requires '.' !in Upper(u, stem) && Upper(u, ".") == "."
    ensures IsReserved(u, stem + ("." + extension)) <==> Upper(u, stem) in RESERVED_WINDOWS_NAMES
    ensures Cleaned(u, stem) == stem && Upper(u, stem) in RESERVED_WINDOWS_NAMES ==>
      SanitizeComponent(u, stem) == "_" + stem
  {
    UpperConcat(u, stem, "." + extension);
    UpperConcat(u, ".", extension);
    BeforeDotStops(Upper(u, stem), Upper(u, extension));
    NoDotNothingBefore(Upper(u, stem));
  }

  lemma {:induction false} NoDotNothingBefore(s: string)
    requires '.' !in s
    ensures BeforeDot(s) == s
  {
    if s != "" {
      NoDotNothingBefore(s[1..]);
      assert s == [s[0]] + s[1..];
    }
  }

  lemma PrefixedIsSafe(name: string)
    requires SafeComponent(name)
    ensures SafeComponent("_" + name)
  {
    var longer := "_" + name;
    forall i | 0 <= i < |longer| ensures !IsSeparator(longer[i]) && !IsControl(longer[i]) {
      assert i > 0 ==> longer[i] == name[i - 1];
    }
  }

  lemma CleanedIsSafe(u: Unicode, name: string)
    requires NoSeparator(name)
    ensures SafeComponent(Cleaned(u, name))
  {
    ReplacedIsClean(name);
    TrimmedIsClean(u, name, Replaced(name));
    UnnamedIsSafe("unnamed");
  }

  lemma UnnamedIsSafe(name: string)
    requires name == "unnamed"
    ensures SafeComponent(name)
  {
  }

  lemma TrimmedIsClean(u: Unicode, name: string, s: string)
    requires s == Replaced(name) && Clean(s)
    ensures Clean(Trimmed(u, name))
    ensures Trimmed(u, name) != "" ==> Trimmed(u, name)[|Trimmed(u, name)| - 1] != '.'
  {
    var left := StripLeft(s, u.isSpace);
    var right := StripRight(left, u.isSpace);
    StripLeftKeepsClean(s, u.isSpace);
    StripRightKeepsClean(left, u.isSpace);
    StripRightKeepsClean(right, IsDot);
    assert StripRight(right, IsDot) != "" ==> !IsDot(StripRight(right, IsDot)[|StripRight(right, IsDot)| - 1]);
  }

  lemma ReplacedIsClean(name: string)
    requires NoSeparator(name)
    ensures Clean(Replaced(name))
  {
    var s := Replaced(name);
    forall i | 0 <= i < |s| ensures !IsSeparator(s[i]) && !IsControl(s[i]) {
      assert !IsSeparator(name[i]);
    }
  }

  lemma StripLeftKeepsClean(s: string, drop: char -> bool)
    requires Clean(s)
    ensures Clean(StripLeft(s, drop))
  {
    var n := |s| - |StripLeft(s, drop)|;
    assert forall i :: n <= i < |s| ==> s[n..][i - n] == s[i];
  }

  lemma StripRightKeepsClean(s: string, drop: char -> bool)
    requires Clean(s)
    ensures Clean(StripRight(s, drop))
  {
  }

  /** Neither separators nor control characters. */
  ghost predicate Clean(s: string) {
    forall i :: 0 <= i < |s| ==> !IsSeparator(s[i]) && !IsControl(s[i])
  }

  /** The components of a safe path: traversal is dropped, the rest sanitized. */
  function Sanitized(u: Unicode, parts: seq<string>): (components: seq<string>) {
    if parts == [] then [] else Sanitized(u, parts[..|parts| - 1]) + SanitizedPart(u, parts[|parts| - 1])
  }

  function SanitizedPart(u: Unicode, part: string): seq<string> {
    if part == "." || part == ".." then [] else [SanitizeComponent(u, part)]
  }

  lemma {:induction false} SanitizedAreSafe(u: Unicode, parts: seq<string>)
    requires forall p :: p in parts ==> NoSeparator(p)
    ensures forall c :: c in Sanitized(u, parts) ==> SafeComponent(c)
    decreases |parts|
  {
    if parts != [] {
      SanitizedAreSafe(u, parts[..|parts| - 1]);
      assert parts[|parts| - 1] in parts;
      SanitizedIsSafe(u, parts[|parts| - 1]);
    }
  }

  function Join(components: seq<string>): string {
    if components == [] then ""
    else if |components| == 1 then components[0]
    else components[0] + "/" + Join(components[1..])
  }

  lemma RunThenSeparator(run: string, rest: string)
    requires run != "" && NoSeparator(run) && (rest != "" ==> IsSeparator(rest[0]))
    ensures Runs(run + rest) == [run] + Runs(rest)
  {
    RunEndsAtSeparator(run, rest);
    assert (run + rest)[0] == run[0];
    assert (run + rest)[..|run|] == run && (run + rest)[|run|..] == rest;
  }

  lemma {:induction false} RunEndsAtSeparator(run: string, rest: string)
    requires NoSeparator(run) && (rest != "" ==> IsSeparator(rest[0]))
    ensures RunLength(run + rest) == |run|
    decreases |run|
  {
    if run == "" {
      assert run + rest == rest;
    } else {
      RunEndsAtSeparator(run[1..], rest);
      assert (run + rest)[1..] == run[1..] + rest;
    }
  }

  /** A path joined from safe components has exactly those components: none is lost, split or merged. */
  lemma {:induction false} JoinedPathHasItsComponents(components: seq<string>)
    requires forall c :: c in components ==> c != "" && NoSeparator(c)
    ensures Runs(Join(components)) == components
    decreases |components|
  {
    if components != [] {
      var first, rest := components[0], components[1..];
      assert first in components;
      if rest == [] {
        RunThenSeparator(first, "");
        assert first + "" == first && components == [first];
      } else {
        assert forall c :: c in rest ==> c in components;
        JoinedPathHasItsComponents(rest);
        JoinTwo(first, Join(rest));
        assert components == [first] + rest;
      }
    }
  }

  lemma JoinTwo(first: string, path: string)
    requires first != "" && NoSeparator(first)
    ensures Runs(first + "/" + path) == [first] + Runs(path)
  {
    var tail := "/" + path;
    assert tail[0] == '/' && tail[1..] == path;
    RunThenSeparator(first, tail);
    assert first + tail == first + "/" + path;
  }

  datatype Destination = Local | Remote

  function MaxPathBytes(d: Destination): nat {
    if d == Local then MAX_LOCAL_PATH_BYTES else MAX_REMOTE_PATH_BYTES
  }

  /** The path before it may be cut to the destination's limit. */
  function WholePath(u: Unicode, displayPath: string): string {
    Join(Sanitized(u, Runs(displayPath)))
  }

  /** `safe_relative_path`, its path. */
  function SafeRelativePath(u: Unicode, displayPath: string, d: Destination): string {
    var relative := WholePath(u, displayPath);
    if u.utf8Length(relative) > MaxPathBytes(d) then u.truncate(relative, MaxPathBytes(d)) else relative
  }

  /** A path that fits the limit stays below the destination: each of its components is safe. */
  lemma SafePathStaysBelow(u: Unicode, displayPath: string, d: Destination)
    requires u.utf8Length(WholePath(u, displayPath)) <= MaxPathBytes(d)
    ensures var path := SafeRelativePath(u, displayPath, d);
      && Runs(path) == Sanitized(u, Runs(displayPath))
      && (forall c :: c in Runs(path) ==> SafeComponent(c) && c != "." && c != "..")
      && (path != "" ==> !IsSeparator(path[0]))
  {
    var components := Sanitized(u, Runs(displayPath));
    SanitizedAreSafe(u, Runs(displayPath));
    JoinedPathHasItsComponents(components);
    if components != [] {
      assert components[0] in components && Join(components)[0] == components[0][0];
    }
  }

  // ----- The plan -----

  datatype Item = Item(sourcePath: string, expectedSize: nat, carved: bool)

  /** `_stem_of`: the last component of a path, as it stands. */
  function Stem(path: string): (stem: string)
    ensures stem != "" && NoSeparator(stem)
  {
    var runs := Runs(path);
    if runs == [] then "carved"
    else
      assert runs[|runs| - 1] in runs;
      runs[|runs| - 1]
  }

  /** It is what follows the last separator, trailing separators left aside. */
  lemma StemIsLastName(directory: string, name: string)
    requires name != "" && NoSeparator(name)
    ensures Stem(directory + ("/" + name)) == name && Stem(name) == name
  {
    RunsAcrossSeparator(directory, name);
    RunThenSeparator(name, "");
    assert name + "" == name && Runs("") == [];
  }

  /** `carved_destination_name`, without an extension. */
  function CarvedName(item: Item): string {
    "carved/" + (Stem(item.sourcePath) + "_size_" + Numeral(item.expectedSize))
  }

  function Relative(u: Unicode, item: Item, d: Destination): string {
    if item.carved then CarvedName(item) else SafeRelativePath(u, item.sourcePath, d)
  }

  /** The path each item asks for. */
  function Asked(u: Unicode, items: seq<Item>, d: Destination): (asked: seq<string>)
    ensures |asked| == |items| && forall i :: 0 <= i < |items| ==> asked[i] == Relative(u, items[i], d)
  {
    seq(|items|, i requires 0 <= i < |items| => Relative(u, items[i], d))
  }

  function KeysOf(u: Unicode, paths: seq<string>, caseInsensitive: bool): set<string> {
    set p | p in paths :: Key(u, p, caseInsensitive)
  }

  ghost predicate PlannedAt(u: Unicode, asked: seq<string>, caseInsensitive: bool, paths: seq<string>, i: nat)
    requires i < |paths| <= |asked|
  {
    IsUnique(u, asked[i], KeysOf(u, paths[..i], caseInsensitive), caseInsensitive, paths[i])
  }

  ghost predicate IsPlan(u: Unicode, asked: seq<string>, caseInsensitive: bool, paths: seq<string>)
    requires |paths| <= |asked|
  {
    forall i: nat :: i < |paths| ==> PlannedAt(u, asked, caseInsensitive, paths, i)
  }

  /** The items whose path is not the one they asked for. */
  ghost predicate CollisionsAre(asked: seq<string>, paths: seq<string>, collisions: set<nat>)
    requires |paths| <= |asked|
  {
    forall i: nat :: i in collisions <==> i < |paths| && paths[i] != asked[i]
  }

  lemma CollisionsOneMore(asked: seq<string>, paths: seq<string>, collisions: set<nat>, final: string)
    requires |paths| < |asked| && CollisionsAre(asked, paths, collisions)
    ensures CollisionsAre(asked, paths + [final], if final !=
      asked[|paths|] then collisions + {|paths|} else collisions)
  {
  }

  /** `plan_export_paths`: in item order, the first free name of each; no two keys are equal. */
  method PlanExportPaths(u: Unicode, items: seq<Item>, d: Destination, caseInsensitive: bool)
    returns (paths: seq<string>, collisions: set<nat>)
    requires KeepsSuffixes(u)
    ensures |paths| == |items| && IsPlan(u, Asked(u, items, d), caseInsensitive, paths)
    ensures forall i, j :: 0 <= i < j < |paths| ==>
      paths[i] != paths[j] && (caseInsensitive ==> Upper(u, paths[i]) != Upper(u, paths[j]))
    ensures forall i: nat :: i < |paths| ==> KeptIffFree(u, Asked(u, items, d)[i], caseInsensitive, paths, i)
    ensures CollisionsAre(Asked(u, items, d), paths, collisions)
  {
    paths, collisions := [], {};
    var used: set<string> := {};
    ghost var asked := Asked(u, items, d);
    for i := 0 to |items|
      invariant |paths| == i && used == KeysOf(u, paths, caseInsensitive)
      invariant IsPlan(u, asked, caseInsensitive, paths) && CollisionsAre(asked, paths, collisions)
    {
      var relative := Relative(u, items[i], d);
      var final := Unique(u, relative, used, caseInsensitive);
      CollisionsOneMore(asked, paths, collisions, final);
      if final != relative {
        collisions := collisions + {i};
      }
      PlanOneMore(u, asked, caseInsensitive, paths, final);
      used := used + {Key(u, final, caseInsensitive)};
      paths := paths + [final];
    }
    PlannedKeysDiffer(u, asked, caseInsensitive, paths);
    forall i, j | 0 <= i < j < |paths|
      ensures paths[i] != paths[j] && (caseInsensitive ==> Upper(u, paths[i]) != Upper(u, paths[j]))
    {
      assert Key(u, paths[i], caseInsensitive) != Key(u, paths[j], caseInsensitive);
    }
    forall i: nat | i < |paths| ensures KeptIffFree(u, asked[i], caseInsensitive, paths, i) {
      PathIsKeptIffFree(u, asked, caseInsensitive, paths, i);
    }
  }

  /** An item gets the path it asked for exactly if no earlier item has it, in whatever case if case does not count. */
  ghost predicate KeptIffFree(u: Unicode, asked: string, caseInsensitive: bool, paths: seq<string>, i: nat)
    requires i < |paths|
  {
    paths[i] == asked <==>
      forall j :: 0 <= j < i ==>
        if caseInsensitive then Upper(u, paths[j]) != Upper(u, asked) else paths[j] != asked
  }

  lemma PathIsKeptIffFree(u: Unicode, asked: seq<string>, caseInsensitive: bool, paths: seq<string>, i: nat)
    requires i < |paths| <= |asked| && IsPlan(u, asked, caseInsensitive, paths)
    ensures KeptIffFree(u, asked[i], caseInsensitive, paths, i)
  {
    var used := KeysOf(u, paths[..i], caseInsensitive);
    assert PlannedAt(u, asked, caseInsensitive, paths, i);
    var counter: nat :| paths[i] == Candidate(asked[i], counter)
      && !Taken(u, asked[i], used, caseInsensitive, counter)
      && forall n: nat :: n < counter ==> Taken(u, asked[i], used, caseInsensitive, n);
    CandidateIsSuffixed(asked[i], counter);
    if counter == 0 {
      forall j | 0 <= j < i ensures Key(u, paths[j], caseInsensitive) != Key(u, asked[i], caseInsensitive) {
        assert paths[..i][j] in paths[..i];
      }
    } else {
      assert Taken(u, asked[i], used, caseInsensitive, 0);
      var p :| p in paths[..i] && Key(u, p, caseInsensitive) == Key(u, asked[i], caseInsensitive);
      var j :| 0 <= j < i && paths[..i][j] == p;
      assert |paths[i]| > |asked[i]|;
    }
  }

  lemma PlanOneMore(u: Unicode, asked: seq<string>, caseInsensitive: bool, paths: seq<string>, final: string)
    requires |paths| < |asked| && IsPlan(u, asked, caseInsensitive, paths)
    requires IsUnique(u, asked[|paths|], KeysOf(u, paths, caseInsensitive), caseInsensitive, final)
    ensures IsPlan(u, asked, caseInsensitive, paths + [final])
    ensures KeysOf(u, paths + [final], caseInsensitive) ==
      KeysOf(u, paths, caseInsensitive) + {Key(u, final, caseInsensitive)}
  {
    var longer := paths + [final];
    forall i: nat | i < |longer| ensures PlannedAt(u, asked, caseInsensitive, longer, i) {
      if i < |paths| {
        assert PlannedAt(u, asked, caseInsensitive, paths, i) && longer[..i] == paths[..i];
      } else {
        assert longer[..i] == paths;
      }
    }
  }

  lemma PlannedKeysDiffer(u: Unicode, asked: seq<string>, caseInsensitive: bool, paths: seq<string>)
    requires |paths| <= |asked| && IsPlan(u, asked, caseInsensitive, paths)
    ensures forall i, j :: 0 <= i < j < |paths| ==>
      Key(u, paths[i], caseInsensitive) != Key(u, paths[j], caseInsensitive)
  {
    forall i: nat, j: nat | i < j < |paths|
      ensures Key(u, paths[i], caseInsensitive) != Key(u, paths[j], caseInsensitive)
    {
      assert PlannedAt(u, asked, caseInsensitive, paths, j);
      assert paths[..j][i] in paths[..j];
    }
  }

  // ----- Which planned paths are safe -----

  ghost predicate AllSafe(components: seq<string>) {
    forall c :: c in components ==> SafeComponent(c)
  }

  ghost predicate NoControls(s: string) {
    forall i :: 0 <= i < |s| ==> !IsControl(s[i])
  }

  /** The last component gets what is appended to the path; an empty path gets it as its only one. */
  function Extended(components: seq<string>, suffix: string): seq<string> {
    if components == [] then (if suffix == "" then [] else [suffix])
    else components[..|components| - 1] + [components[|components| - 1] + suffix]
  }

  lemma {:induction false} JoinExtended(components: seq<string>, suffix: string)
    ensures Join(components) + suffix == Join(Extended(components, suffix))
    decreases |components|
  {
    if |components| > 1 {
      JoinExtended(components[1..], suffix);
      assert Extended(components, suffix)[1..] == Extended(components[1..], suffix);
      assert Extended(components, suffix)[0] == components[0];
      RegroupText(components[0] + "/", Join(components[1..]), suffix);
    } else if |components| == 1 {
      assert Extended(components, suffix) == [components[0] + suffix];
    }
  }

  lemma RegroupText(a: string, b: string, c: string)
    ensures (a + b) + c == a + (b + c)
  {
  }

  lemma SuffixKeepsSafe(name: string, suffix: string)
    requires IsSuffix(suffix)
    ensures SafeComponent(name) ==> SafeComponent(name + suffix)
    ensures suffix != "" ==> SafeComponent(suffix)
    ensures NoSeparator(name) ==> NoSeparator(name + suffix)
  {
    assert forall i :: 0 <= i < |suffix| ==> !IsSeparator(suffix[i]) && !IsControl(suffix[i]);
  }

  /** A suffix on a safe path leaves it safe. */
  lemma SuffixedPathIsSafe(components: seq<string>, suffix: string)
    requires AllSafe(components) && IsSuffix(suffix)
    ensures AllSafe(Runs(Join(components) + suffix))
  {
    var longer := Extended(components, suffix);
    JoinExtended(components, suffix);
    forall c | c in longer ensures SafeComponent(c) {
      SuffixKeepsSafe(if components == [] then "" else components[|components| - 1], suffix);
      assert c in components || c == longer[|longer| - 1];
      assert components != [] ==> components[|components| - 1] in components;
    }
    JoinedPathHasItsComponents(longer);
  }

  /** A carved name has two components, the second made of the stem as it stands. */
  lemma CarvedPathHasTwoComponents(item: Item, suffix: string)
    requires IsSuffix(suffix)
    ensures Runs(CarvedName(item) + suffix) ==
      ["carved", Stem(item.sourcePath) + "_size_" + Numeral(item.expectedSize) + suffix]
  {
    var name := Stem(item.sourcePath) + "_size_" + Numeral(item.expectedSize);
    assert NoSeparator(name);
    SuffixKeepsSafe(name, suffix);
    var components := ["carved", name + suffix];
    assert Join(components[1..]) == name + suffix;
    assert Join(components) == "carved" + "/" + (name + suffix);
    assert CarvedName(item) + suffix == Join(components);
    JoinedPathHasItsComponents(components);
  }

  lemma CarvedNameIsSafeIff(stem: string, size: nat, suffix: string)
    requires NoSeparator(stem) && IsSuffix(suffix)
    ensures SafeComponent(stem + "_size_" + Numeral(size) + suffix) <==> NoControls(stem)
  {
    var tail := "_size_" + Numeral(size) + suffix;
    var name := stem + "_size_" + Numeral(size) + suffix;
    assert name == stem + tail;
    assert forall i :: 0 <= i < |tail| ==> !IsSeparator(tail[i]) && !IsControl(tail[i]) && tail[i] != '.';
    assert name[|name| - 1] == tail[|tail| - 1];
    assert forall i :: 0 <= i < |stem| ==> name[i] == stem[i];
  }

  lemma CarvedCandidateIsSafeIff(item: Item, suffix: string)
    requires IsSuffix(suffix)
    ensures AllSafe(Runs(CarvedName(item) + suffix)) <==> NoControls(Stem(item.sourcePath))
  {
    CarvedPathHasTwoComponents(item, suffix);
    CarvedNameIsSafeIff(Stem(item.sourcePath), item.expectedSize, suffix);
    var components := Runs(CarvedName(item) + suffix);
    assert SafeComponent("carved");
    assert components[0] in components && components[1] in components;
  }

  lemma PlainCandidateIsSafe(u: Unicode, path: string, suffix: string)
    requires IsSuffix(suffix)
    ensures AllSafe(Runs(WholePath(u, path) + suffix))
  {
    SanitizedAreSafe(u, Runs(path));
    SuffixedPathIsSafe(Sanitized(u, Runs(path)), suffix);
  }

  lemma CandidateIsSafeIff(u: Unicode, item: Item, d: Destination, counter: nat)
    requires item.carved || u.utf8Length(WholePath(u, item.sourcePath)) <= MaxPathBytes(d)
    ensures AllSafe(Runs(Candidate(Relative(u, item, d), counter))) <==>
      (item.carved ==> NoControls(Stem(item.sourcePath)))
  {
    CandidateIsSuffixed(Relative(u, item, d), counter);
    SuffixIsPlain(counter);
    if item.carved {
      CarvedCandidateIsSafeIff(item, Suffix(counter));
    } else {
      PlainCandidateIsSafe(u, item.sourcePath, Suffix(counter));
    }
  }

  /**
   A planned path that was not cut to the byte limit has only safe components exactly if its item is not carved or
   its stem has no control character: carved names are not sanitized.
   */
  lemma PlannedPathIsSafeIff(
    u: Unicode, items: seq<Item>, d: Destination, caseInsensitive: bool, paths: seq<string>, i: nat)
    requires i < |paths| == |items| && IsPlan(u, Asked(u, items, d), caseInsensitive, paths)
    requires items[i].carved || u.utf8Length(WholePath(u, items[i].sourcePath)) <= MaxPathBytes(d)
    ensures AllSafe(Runs(paths[i])) <==> (items[i].carved ==> NoControls(Stem(items[i].sourcePath)))
  {
    var asked := Asked(u, items, d);
    assert PlannedAt(u, asked, caseInsensitive, paths, i);
    var counter: nat :| paths[i] == Candidate(asked[i], counter);
    CandidateIsSafeIff(u, items[i], d, counter);
  }

  /** And such a stem exists: a carved item whose name has a line break keeps it. */
  lemma CarvedNameKeepsLineBreak(item: Item)
    requires item == Item("a\nb", 5, true)
    ensures !AllSafe(Runs(CarvedName(item)))
  {
    RunThenSeparator("a\nb", "");
    assert "a\nb" + "" == "a\nb";
    assert Stem(item.sourcePath)[1] == '\n';
    CarvedPathHasTwoComponents(item, "");
    CarvedNameIsSafeIff(Stem(item.sourcePath), 5, "");
    assert CarvedName(item) + "" == CarvedName(item);
    var components := Runs(CarvedName(item));
    assert components[1] in components;
  }

  // ----- Which planned paths lie below another -----

  /** `q` names something in a directory `p`, so that `p` cannot be a file. */
  ghost predicate Below(p: string, q: string) {
    p != "" && |p| < |q| && q[..|p|] == p && q[|p|] == '/'
  }

  ghost predicate ProperPrefix(a: seq<string>, b: seq<string>) {
    a != [] && |a| < |b| && b[..|a|] == a
  }

  ghost predicate Components(names: seq<string>) {
    forall c :: c in names ==> c != "" && NoSeparator(c)
  }

  lemma {:induction false} RunsAcrossSeparator(p: string, q: string)
    ensures Runs(p + ("/" + q)) == Runs(p) + Runs(q)
    decreases |p|
  {
    if p == "" {
      assert p + ("/" + q) == "/" + q && ("/" + q)[1..] == q;
    } else if IsSeparator(p[0]) {
      assert (p + ("/" + q))[1..] == p[1..] + ("/" + q);
      RunsAcrossSeparator(p[1..], q);
    } else {
      var n := RunLength(p);
      RunsAcrossSeparator(p[n..], q);
      FirstRunAcrossSeparator(p[..n], p[n..], q);
      assert p == p[..n] + p[n..];
    }
  }

  lemma FirstRunAcrossSeparator(run: string, rest: string, q: string)
    requires run != "" && NoSeparator(run) && (rest != "" ==> IsSeparator(rest[0]))
    requires Runs(rest + ("/" + q)) == Runs(rest) + Runs(q)
    ensures Runs((run + rest) + ("/" + q)) == Runs(run + rest) + Runs(q)
  {
    RunThenSeparator(run, rest + ("/" + q));
    RunThenSeparator(run, rest);
    RegroupText(run, rest, "/" + q);
    Associate([run], Runs(rest), Runs(q));
  }

  lemma JoinThenSeparator(components: seq<string>, rest: string)
    requires Components(components)
    ensures Runs(Join(components) + ("/" + rest)) == components + Runs(rest)
  {
    RunsAcrossSeparator(Join(components), rest);
    JoinedPathHasItsComponents(components);
  }

  lemma {:induction false} JoinSplits(components: seq<string>, n: nat)
    requires 0 < n < |components|
    ensures Join(components) == Join(components[..n]) + ("/" + Join(components[n..]))
    decreases n
  {
    var first, others := components[0], components[1..];
    if n == 1 {
      assert components[..1] == [first];
      RegroupText(first, "/", Join(others));
    } else {
      JoinSplits(others, n - 1);
      assert components[..n] == [first] + others[..n - 1] && components[n..] == others[n - 1..];
      assert components[..n][1..] == others[..n - 1];
      RegroupText(first + "/", Join(others[..n - 1]), "/" + Join(components[n..]));
    }
  }

  lemma {:induction false} JoinIsNotEmpty(components: seq<string>)
    requires components != [] && Components(components)
    ensures Join(components) != ""
  {
    assert components[0] in components;
  }

  /** One joined path lies below another exactly when its components go on after the other's. */
  lemma BelowIffPrefix(a: seq<string>, b: seq<string>)
    requires Components(a) && Components(b)
    ensures Below(Join(a), Join(b)) <==> ProperPrefix(a, b)
  {
    var p, q := Join(a), Join(b);
    if ProperPrefix(a, b) {
      JoinSplits(b, |a|);
      JoinIsNotEmpty(a);
    }
    if Below(p, q) {
      var rest := q[|p| + 1..];
      assert q == p + ("/" + rest);
      JoinThenSeparator(a, rest);
      JoinedPathHasItsComponents(b);
      assert Runs(rest) == [] ==> a == b;
    }
  }

  /** The components of the path that an item asks for, renamed or not; those of a path that is not cut. */
  lemma CandidateIsJoined(u: Unicode, item: Item, d: Destination, counter: nat)
    requires item.carved || u.utf8Length(WholePath(u, item.sourcePath)) <= MaxPathBytes(d)
    ensures var path := Candidate(Relative(u, item, d), counter);
      path == Join(Runs(path)) && Components(Runs(path))
  {
    CandidateIsSuffixed(Relative(u, item, d), counter);
    SuffixIsPlain(counter);
    if item.carved {
      CarvedPathHasTwoComponents(item, Suffix(counter));
      CarvedIsJoined(item, Suffix(counter));
    } else {
      var components := Sanitized(u, Runs(item.sourcePath));
      SanitizedAreSafe(u, Runs(item.sourcePath));
      JoinExtended(components, Suffix(counter));
      ExtendedAreComponents(components, Suffix(counter));
      JoinedPathHasItsComponents(Extended(components, Suffix(counter)));
    }
  }

  lemma CarvedIsJoined(item: Item, suffix: string)
    ensures CarvedName(item) + suffix ==
      Join(["carved", Stem(item.sourcePath) + "_size_" + Numeral(item.expectedSize) + suffix])
  {
    var name := Stem(item.sourcePath) + "_size_" + Numeral(item.expectedSize);
    var components := ["carved", name + suffix];
    assert components[1..] == [name + suffix];
    assert Join(components) == "carved" + "/" + (name + suffix);
  }

  lemma ExtendedAreComponents(components: seq<string>, suffix: string)
    requires AllSafe(components) && IsSuffix(suffix)
    ensures Components(Extended(components, suffix))
  {
    var longer := Extended(components, suffix);
    forall c | c in longer ensures c != "" && NoSeparator(c) {
      SuffixKeepsSafe(if components == [] then "" else components[|components| - 1], suffix);
      assert c in components || c == longer[|longer| - 1];
      assert components != [] ==> components[|components| - 1] in components;
    }
  }

  /**
    * Keys that differ do not keep a file from being planned where another item needs a directory:
    * a planned path lies below another exactly when the other's components are the first of its own.
    */
  lemma PlannedPathIsBelowIff(
    u: Unicode, items: seq<Item>, d: Destination, caseInsensitive: bool, paths: seq<string>, i: nat, j: nat)
    requires i < |paths| == |items| && j < |paths| && IsPlan(u, Asked(u, items, d), caseInsensitive, paths)
    requires items[i].carved || u.utf8Length(WholePath(u, items[i].sourcePath)) <= MaxPathBytes(d)
    requires items[j].carved || u.utf8Length(WholePath(u, items[j].sourcePath)) <= MaxPathBytes(d)
    ensures Below(paths[i], paths[j]) <==> ProperPrefix(Runs(paths[i]), Runs(paths[j]))
    ensures NotRenamed(u, items, d, paths, i) && NotRenamed(u, items, d, paths, j) ==>
      (Below(paths[i], paths[j]) <==>
        ProperPrefix(Sanitized(u, Runs(items[i].sourcePath)), Sanitized(u, Runs(items[j].sourcePath))))
  {
    PlannedIsJoined(u, items, d, caseInsensitive, paths, i);
    PlannedIsJoined(u, items, d, caseInsensitive, paths, j);
    BelowIffPrefix(Runs(paths[i]), Runs(paths[j]));
    if !items[i].carved && !items[j].carved {
      SafePathStaysBelow(u, items[i].sourcePath, d);
      SafePathStaysBelow(u, items[j].sourcePath, d);
    }
  }

  /** The item is not carved and is planned under the path that it asked for. */
  ghost predicate NotRenamed(u: Unicode, items: seq<Item>, d: Destination, paths: seq<string>, i: nat)
    requires i < |paths| == |items|
  {
    !items[i].carved && paths[i] == Asked(u, items, d)[i]
  }

  lemma PlannedIsJoined(
    u: Unicode, items: seq<Item>, d: Destination, caseInsensitive: bool, paths: seq<string>, i: nat)
    requires i < |paths| == |items| && IsPlan(u, Asked(u, items, d), caseInsensitive, paths)
    requires items[i].carved || u.utf8Length(WholePath(u, items[i].sourcePath)) <= MaxPathBytes(d)
    ensures paths[i] == Join(Runs(paths[i])) && Components(Runs(paths[i]))
  {
    var asked := Asked(u, items, d);
    assert PlannedAt(u, asked, caseInsensitive, paths, i);
    var counter: nat :| paths[i] == Candidate(asked[i], counter);
    CandidateIsJoined(u, items[i], d, counter);
  }

  lemma {:induction false} SanitizedConcat(u: Unicode, a: seq<string>, b: seq<string>)
    ensures Sanitized(u, a + b) == Sanitized(u, a) + Sanitized(u, b)
    decreases |b|
  {
    if b == [] {
      assert a + b == a;
    } else {
      var n := |b| - 1;
      SanitizedConcat(u, a, b[..n]);
      LastOfConcat(a, b);
      Associate(Sanitized(u, a), Sanitized(u, b[..n]), SanitizedPart(u, b[n]));
    }
  }

  lemma LastOfConcat(a: seq<string>, b: seq<string>)
    requires b != []
    ensures a + b != [] && (a + b)[..|a + b| - 1] == a + b[..|b| - 1] && (a + b)[|a + b| - 1] == b[|b| - 1]
  {
  }

  lemma Associate(a: seq<string>, b: seq<string>, c: seq<string>)
    ensures (a + b) + c == a + (b + c)
  {
  }

  /** Every part gives its own components, wherever it stands. */
  lemma PartsStayApart(u: Unicode, a: seq<string>, part: string, b: seq<string>)
    ensures Sanitized(u, a + ([part] + b)) == Sanitized(u, a) + (SanitizedPart(u, part) + Sanitized(u, b))
  {
    SanitizedConcat(u, a, [part] + b);
    SanitizedConcat(u, [part], b);
    OnePart(u, part, [part]);
  }

  lemma OnePart(u: Unicode, part: string, parts: seq<string>)
    requires parts == [part]
    ensures Sanitized(u, parts) == SanitizedPart(u, part)
  {
    assert parts[..0] == [] && Sanitized(u, []) == [];
  }

  /** A traversal part gives none, any other gives one. */
  lemma TraversalIsDropped(u: Unicode, part: string)
    ensures part == "." || part == ".." ==> SanitizedPart(u, part) == []
    ensures part != "." && part != ".." ==> SanitizedPart(u, part) == [SanitizeComponent(u, part)]
  {
  }

  /** The path has a part that is not dropped as traversal. */
  ghost predicate NamesSomething(path: string) {
    exists c :: c in Runs(path) && c != "." && c != ".."
  }

  lemma {:induction false} SanitizedIsNotEmpty(u: Unicode, parts: seq<string>, k: nat)
    requires k < |parts| && parts[k] != "." && parts[k] != ".."
    ensures Sanitized(u, parts) != []
    decreases |parts|
  {
    if k < |parts| - 1 {
      SanitizedIsNotEmpty(u, parts[..|parts| - 1], k);
    }
  }

  lemma SanitizedNames(u: Unicode, path: string)
    requires NamesSomething(path)
    ensures Sanitized(u, Runs(path)) != []
  {
    var c :| c in Runs(path) && c != "." && c != "..";
    var k :| 0 <= k < |Runs(path)| && Runs(path)[k] == c;
    SanitizedIsNotEmpty(u, Runs(path), k);
  }

  /** An item's path always lies below the path of an item that it goes on from. */
  lemma LongerPathIsBelow(u: Unicode, p: string, q: string)
    requires NamesSomething(p) && NamesSomething(q)
    ensures Below(WholePath(u, p), WholePath(u, p + ("/" + q)))
  {
    var a, b := Sanitized(u, Runs(p)), Sanitized(u, Runs(q));
    SanitizedNames(u, p);
    SanitizedNames(u, q);
    RunsAcrossSeparator(p, q);
    SanitizedConcat(u, Runs(p), Runs(q));
    SanitizedComponents(u, p);
    SanitizedComponents(u, p + ("/" + q));
    assert (a + b)[..|a|] == a;
    BelowIffPrefix(a, a + b);
  }

  lemma SanitizedComponents(u: Unicode, path: string)
    ensures Components(Sanitized(u, Runs(path)))
  {
    SanitizedAreSafe(u, Runs(path));
  }

  /** Two items, one path going on from the other, as `a` and `a/b` do: a file and a directory of one name. */
  method FileAndDirectory(u: Unicode, p: string, q: string, size: nat)
    returns (paths: seq<string>, collisions: set<nat>)
    requires KeepsSuffixes(u) && NamesSomething(p) && NamesSomething(q)
    requires u.utf8Length(WholePath(u, p)) <= MAX_LOCAL_PATH_BYTES
    requires u.utf8Length(WholePath(u, p + ("/" + q))) <= MAX_LOCAL_PATH_BYTES
    ensures paths == [WholePath(u, p), WholePath(u, p + ("/" + q))] && collisions == {}
    ensures Below(paths[0], paths[1])
  {
    var items := [Item(p, size, false), Item(p + ("/" + q), size, false)];
    TwoItemsAsk(u, p, q, items);
    paths, collisions := PlanTwo(u, items, WholePath(u, p), WholePath(u, p + ("/" + q)));
  }

  lemma TwoItemsAsk(u: Unicode, p: string, q: string, items: seq<Item>)
    requires NamesSomething(p) && NamesSomething(q) && |items| == 2 && !items[0].carved && !items[1].carved
    requires items[0].sourcePath == p && items[1].sourcePath == p + ("/" + q)
    requires u.utf8Length(WholePath(u, p)) <= MAX_LOCAL_PATH_BYTES
    requires u.utf8Length(WholePath(u, p + ("/" + q))) <= MAX_LOCAL_PATH_BYTES
    ensures Asked(u, items, Local) == [WholePath(u, p), WholePath(u, p + ("/" + q))]
    ensures Below(WholePath(u, p), WholePath(u, p + ("/" + q)))
    ensures WholePath(u, p) != WholePath(u, p + ("/" + q))
  {
    LongerPathIsBelow(u, p, q);
    UncutItemAsks(u, items[0]);
    UncutItemAsks(u, items[1]);
  }

  lemma UncutItemAsks(u: Unicode, item: Item)
    requires !item.carved && u.utf8Length(WholePath(u, item.sourcePath)) <= MAX_LOCAL_PATH_BYTES
    ensures Relative(u, item, Local) == WholePath(u, item.sourcePath)
  {
  }

  method PlanTwo(u: Unicode, items: seq<Item>, ghost p: string, ghost q: string)
    returns (paths: seq<string>, collisions: set<nat>)
    requires KeepsSuffixes(u) && Asked(u, items, Local) == [p, q] && p != q
    ensures paths == [p, q] && collisions == {}
  {
    paths, collisions := PlanExportPaths(u, items, Local, false);
    TwoArePlanned(u, Asked(u, items, Local), paths, collisions, p, q);
  }

  /** Two different paths are planned as they were asked for. */
  lemma TwoArePlanned(u: Unicode, asked: seq<string>, paths: seq<string>, collisions: set<nat>, p: string, q: string)
    requires asked == [p, q] && p != q && |paths| == 2
    requires IsPlan(u, asked, false, paths) && CollisionsAre(asked, paths, collisions)
    ensures paths == [p, q] && collisions == {}
  {
    assert PlannedAt(u, asked, false, paths, 0) && PlannedAt(u, asked, false, paths, 1);
    assert paths[..0] == [] && paths[..1] == [paths[0]];
    FirstCandidateIsTaken(u, p, KeysOf(u, [], false), paths[0]);
    FirstCandidateIsTaken(u, q, KeysOf(u, [p], false), paths[1]);
  }

  lemma FirstCandidateIsTaken(u: Unicode, relative: string, used: set<string>, final: string)
    requires IsUnique(u, relative, used, false, final) && relative !in used
    ensures final == relative
  {
    assert !Taken(u, relative, used, false, 0);
  }
}
