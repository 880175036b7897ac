/** scanner/partition_discovery.py: whether allocated partitions overlap. */
module PartitionDiscovery {

  datatype Partition = Partition(start: int, end: int, isAllocated: bool)

  /** A line of `mmls`, as its pattern matched: sectors are not negative there. */
  datatype Line = Line(start: nat, end: nat, length: nat, isMeta: bool, isTableOrGap: bool)

  /** `_entry_from_match`, as far as overlaps are concerned. */
  function EntryFromLine(line: Line): (p: Partition)
    ensures p.isAllocated ==> p.start <= p.end
  {
    Partition(line.start, line.end, line.isMeta && line.start <= line.end && line.length > 0 && !line.isTableOrGap)
  }

  datatype Span = Span(start: int, end: int)

  predicate Intersect(a: Span, b: Span) {
    a.start <= b.end && b.start <= a.end
  }

  /** Some two of the spans share a sector. */
  ghost predicate SomeIntersect(spans: seq<Span>) {
    exists i, j :: 0 <= i < j < |spans| && Intersect(spans[i], spans[j])
  }

  predicate AtMost(a: Span, b: Span) {
    a.start < b.start || (a.start == b.start && a.end <= b.end)
  }

  ghost predicate IsSorted(spans: seq<Span>) {
    forall i, j :: 0 <= i < j < |spans| ==> AtMost(spans[i], spans[j])
  }

  ghost predicate AllProper(spans: seq<Span>) {
    forall i :: 0 <= i < |spans| ==> spans[i].start <= spans[i].end
  }

  function Insert(spans: seq<Span>, s: Span): (r: seq<Span>)
    ensures |r| == |spans| + 1
    ensures forall x :: x in r <==> x in spans || x == s
  {
    if spans == [] then [s]
    else if AtMost(s, spans[0]) then [s] + spans
    else [spans[0]] + Insert(spans[1..], s)
  }

  /** `sorted` */
  function Sorted(spans: seq<Span>): (r: seq<Span>)
    ensures |r| == |spans|
    ensures forall x :: x in r <==> x in spans
  {
    if spans == [] then []
    else
      assert spans == [spans[0]] + spans[1..];
      Insert(Sorted(spans[1..]), spans[0])
  }

  lemma {:induction false} InsertKeepsSorted(spans: seq<Span>, s: Span)
    requires IsSorted(spans)
    ensures IsSorted(Insert(spans, s))
    decreases |spans|
  {
    if spans != [] {
      InsertKeepsSorted(spans[1..], s);
      var r := Insert(spans, s);
      var rest := Insert(spans[1..], s);
      forall i, j | 0 <= i < j < |r| ensures AtMost(r[i], r[j]) {
        if AtMost(s, spans[0]) {
          assert r[j] == spans[j - 1];
          assert i == 0 ==> r[i] == s && AtMost(spans[0], r[j]);
        } else {
          assert r[j] == rest[j - 1] && rest[j - 1] in rest;
          assert r[j] in spans[1..] || r[j] == s;
          assert i > 0 ==> r[i] == rest[i - 1];
        }
      }
    }
  }

  lemma {:induction false} SortedIsSorted(spans: seq<Span>)
    ensures IsSorted(Sorted(spans))
    decreases |spans|
  {
    if spans != [] {
      SortedIsSorted(spans[1..]);
      InsertKeepsSorted(Sorted(spans[1..]), spans[0]);
    }
  }

  ghost predicate MeetsOne(s: Span, spans: seq<Span>) {
    exists x :: x in spans && Intersect(s, x)
  }

  lemma ConsIntersects(s: Span, spans: seq<Span>)
    ensures SomeIntersect([s] + spans) <==> SomeIntersect(spans) || MeetsOne(s, spans)
  {
    var all := [s] + spans;
    if SomeIntersect(all) {
      var i, j :| 0 <= i < j < |all| && Intersect(all[i], all[j]);
      assert all[j] == spans[j - 1] && spans[j - 1] in spans;
      assert i > 0 ==> all[i] == spans[i - 1];
    }
    if SomeIntersect(spans) {
      var i, j :| 0 <= i < j < |spans| && Intersect(spans[i], spans[j]);
      assert all[i + 1] == spans[i] && all[j + 1] == spans[j];
    }
    if MeetsOne(s, spans) {
      var x :| x in spans && Intersect(s, x);
      var j :| 0 <= j < |spans| && spans[j] == x;
      assert Intersect(all[0], all[j + 1]);
    }
  }

  lemma MeetsOneMore(s: Span, spans: seq<Span>, x: Span, more: seq<Span>)
    requires forall y :: y in more <==> y in spans || y == x
    ensures MeetsOne(s, more) <==> MeetsOne(s, spans) || Intersect(s, x)
  {
    if MeetsOne(s, spans) {
      var y :| y in spans && Intersect(s, y);
      assert y in more;
    }
    if Intersect(s, x) {
      assert x in more;
    }
  }

  /** Where a span is inserted does not matter for what it intersects. */
  lemma {:induction false} InsertIntersects(spans: seq<Span>, s: Span)
    ensures SomeIntersect(Insert(spans, s)) <==> SomeIntersect(spans) || MeetsOne(s, spans)
    decreases |spans|
  {
    if spans == [] || AtMost(s, spans[0]) {
      ConsIntersects(s, spans);
      assert [s] + spans == Insert(spans, s);
    } else {
      var first, rest := spans[0], spans[1..];
      assert spans == [first] + rest;
      InsertIntersects(rest, s);
      ConsIntersects(first, Insert(rest, s));
      ConsIntersects(first, rest);
      MeetsOneMore(first, rest, s, Insert(rest, s));
      MeetsOneMore(s, rest, first, spans);
    }
  }

  lemma {:induction false} SortingKeepsIntersections(spans: seq<Span>)
    ensures SomeIntersect(Sorted(spans)) <==> SomeIntersect(spans)
    decreases |spans|
  {
    if spans != [] {
      var s, rest := spans[0], spans[1..];
      assert spans == [s] + rest;
      SortingKeepsIntersections(rest);
      InsertIntersects(Sorted(rest), s);
      ConsIntersects(s, rest);
    }
  }

  function AllocatedSpans(partitions: seq<Partition>): (spans: seq<Span>) {
    if partitions == [] then []
    else
      var p := partitions[0];
      (if p.isAllocated then [Span(p.start, p.end)] else []) + AllocatedSpans(partitions[1..])
  }

  /** As `EntryFromLine` makes them. */
  ghost predicate AllocatedNotEmpty(partitions: seq<Partition>) {
    forall i :: 0 <= i < |partitions| && partitions[i].isAllocated ==> partitions[i].start <= partitions[i].end
  }

  lemma {:induction false} AllocatedAreProper(partitions: seq<Partition>)
    requires AllocatedNotEmpty(partitions)
    ensures AllProper(AllocatedSpans(partitions))
    decreases |partitions|
  {
    if partitions != [] {
      AllocatedAreProper(partitions[1..]);
    }
  }

  /** Without overlap so far, in sorted order, the spans end one before the other begins. */
  ghost predicate InSteps(spans: seq<Span>, n: nat)
    requires n <= |spans|
  {
    forall i, j :: 0 <= i < j < n ==> spans[i].end < spans[j].start
  }

  /**
    * `_has_overlap`: comparing neighbours in sorted order finds an overlap exactly when any two
    * allocated partitions share a sector.
    */
  method HasOverlap(partitions: seq<Partition>) returns (found: bool)
    requires AllocatedNotEmpty(partitions)
    ensures found <==> SomeIntersect(AllocatedSpans(partitions))
  {
    var spans := Sorted(AllocatedSpans(partitions));
    AllocatedAreProper(partitions);
    SortedIsSorted(AllocatedSpans(partitions));
    SortingKeepsIntersections(AllocatedSpans(partitions));
    forall i | 0 <= i < |spans| ensures spans[i].start <= spans[i].end {
      assert spans[i] in AllocatedSpans(partitions);
    }
    var previousEnd := 0;
    for k := 0 to |spans|
      invariant InSteps(spans, k)
      invariant k > 0 ==> previousEnd == spans[k - 1].end
    {
      if k > 0 && spans[k].start <= previousEnd {
        assert Intersect(spans[k - 1], spans[k]);
        return true;
      }
      assert forall i :: 0 <= i < k - 1 ==> spans[i].end < spans[k - 1].start;
      previousEnd := spans[k].end;
    }
    return false;
  }

  /** The entries of a tool's output. */
  function Entries(lines: seq<Line>): (partitions: seq<Partition>)
    ensures |partitions| == |lines| && forall i :: 0 <= i < |lines| ==> partitions[i] == EntryFromLine(lines[i])
  {
    seq(|lines|, i requires 0 <= i < |lines| => EntryFromLine(lines[i]))
  }

  /** Two lines claim a common sector for partitions. */
  ghost predicate LinesClash(lines: seq<Line>) {
    exists i, j :: 0 <= i < j < |lines| && Claims(lines[i]) && Claims(lines[j])
                   && lines[i].start <= lines[j].end && lines[j].start <= lines[i].end
  }

  /** A metadata line with a sensible extent that is neither the table itself nor a gap. */
  predicate Claims(line: Line) {
    line.isMeta && !line.isTableOrGap && line.start <= line.end && line.length > 0
  }

  lemma {:induction false} ClashIsIntersection(lines: seq<Line>)
    ensures SomeIntersect(AllocatedSpans(Entries(lines))) <==> LinesClash(lines)
    decreases |lines|
  {
    if lines != [] {
      var first, rest := lines[0], lines[1..];
      ClashIsIntersection(rest);
      assert Entries(lines)[1..] == Entries(rest);
      if Claims(first) {
        ConsIntersects(Span(first.start, first.end), AllocatedSpans(Entries(rest)));
        SpansOfClaims(rest, Span(first.start, first.end));
      } else {
        assert AllocatedSpans(Entries(lines)) == AllocatedSpans(Entries(rest));
      }
      ClashesOfCons(lines);
    }
  }

  ghost predicate ClashesWith(first: Line, lines: seq<Line>) {
    exists j :: 0 <= j < |lines| && Claims(lines[j]) && first.start <= lines[j].end && lines[j].start <= first.end
  }

  lemma ClashesOfCons(lines: seq<Line>)
    requires lines != []
    ensures LinesClash(lines) <==> LinesClash(lines[1..]) || (Claims(lines[0]) && ClashesWith(lines[0], lines[1..]))
  {
    var rest := lines[1..];
    assert forall k :: 0 <= k < |rest| ==> rest[k] == lines[k + 1];
    if LinesClash(lines) {
      var i, j :| 0 <= i < j < |lines| && Claims(lines[i]) && Claims(lines[j])
                  && lines[i].start <= lines[j].end && lines[j].start <= lines[i].end;
      assert rest[j - 1] == lines[j];
      assert i > 0 ==> rest[i - 1] == lines[i];
    }
  }

  lemma {:induction false} SpansOfClaims(lines: seq<Line>, s: Span)
    ensures MeetsOne(s, AllocatedSpans(Entries(lines))) <==>
      exists j :: 0 <= j < |lines| && Claims(lines[j]) && s.start <= lines[j].end && lines[j].start <= s.end
    decreases |lines|
  {
    if lines != [] {
      var first, rest := lines[0], lines[1..];
      SpansOfClaims(rest, s);
      assert Entries(lines)[1..] == Entries(rest);
      assert forall k :: 0 <= k < |rest| ==> rest[k] == lines[k + 1];
      if Claims(first) {
        MeetsOneMore(s, AllocatedSpans(Entries(rest)), Span(first.start, first.end), AllocatedSpans(Entries(lines)));
      }
    }
  }

  /** `parse_mmls_output` warns of overlapping partitions exactly when two lines of the tool claim a common sector. */
  method WarnsOfOverlap(lines: seq<Line>) returns (warned: bool)
    ensures warned <==> LinesClash(lines)
  {
    var partitions: seq<Partition> := [];
    for i := 0 to |lines|
      invariant partitions == Entries(lines[..i])
    {
      partitions := partitions + [EntryFromLine(lines[i])];
    }
    assert lines[..|lines|] == lines;
    warned := HasOverlap(partitions);
    ClashIsIntersection(lines);
  }
}
