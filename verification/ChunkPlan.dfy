/** Extents, the chunks they are read in, and the bytes those chunks should hold. */
module ChunkPlan {
  import opened Bytes
  import opened ReadErrors

  const CHUNK_SIZE: nat := 1024 * 1024

  datatype Extent = Extent(offset: int, length: int, sparse: bool)

  predicate Wellformed(extents: seq<Extent>) {
    forall i :: 0 <= i < |extents| ==> extents[i].offset >= 0 && extents[i].length >= 0
  }

  /** What a set of extents holds, byte by byte: the source's bytes, or zeros where sparse. */
  function Flat(source: int -> Byte, extents: seq<Extent>): (content: seq<Byte>)
    requires Wellformed(extents)
  {
    if extents == [] then []
    else
      var e := extents[0];
      (if e.sparse then Zeros(e.length) else Slice(source, e.offset, e.length)) + Flat(source, extents[1..])
  }

  /** Byte `i` of extent `k` stands after all bytes of the extents before it: the source's, or zero where sparse. */
  lemma {:induction false} FlatByteByByte(source: int -> Byte, extents: seq<Extent>, k: nat, i: nat)
    requires Wellformed(extents) && k < |extents| && i < extents[k].length
    ensures var position := |Flat(source, extents[..k])| + i;
      && position < |Flat(source, extents)|
      && Flat(source, extents)[position] == if extents[k].sparse then 0 else source(extents[k].offset + i)
    decreases k
  {
    var e, rest := extents[0], extents[1..];
    var first := if e.sparse then Zeros(e.length) else Slice(source, e.offset, e.length);
    if k == 0 {
      assert extents[..0] == [];
    } else {
      FlatByteByByte(source, rest, k - 1, i);
      assert extents[..k][1..] == rest[..k - 1];
    }
  }

  /** One read or zero fill of at most `CHUNK_SIZE` bytes. */
  datatype Chunk = Chunk(offset: int, length: nat, sparse: bool)

  /** How much of what remains the next chunk takes. */
  function NextSize(remaining: int): (size: nat)
    requires remaining > 0
    ensures 0 < size <= CHUNK_SIZE && size <= remaining
  {
    if CHUNK_SIZE < remaining then CHUNK_SIZE else remaining
  }

  /** An extent cut into chunks. */
  function Cut(offset: int, remaining: int, sparse: bool): (chunks: seq<Chunk>)
    decreases remaining
  {
    if remaining <= 0 then []
    else
      var n := NextSize(remaining);
      [Chunk(offset, n, sparse)] + Cut(offset + n, remaining - n, sparse)
  }

  /** The chunks of an extent follow one another, each but the last as large as a chunk may be. */
  lemma {:induction false} CutIsFull(offset: int, remaining: int, sparse: bool, i: nat)
    requires i < |Cut(offset, remaining, sparse)|
    ensures var c := Cut(offset, remaining, sparse)[i];
      && c.sparse == sparse && c.offset == offset + i * 0x10_0000
      && c.length == if i == |Cut(offset, remaining, sparse)| - 1 then remaining - i * 0x10_0000 else 0x10_0000
    ensures 0 < Cut(offset, remaining, sparse)[i].length <= 0x10_0000
    decreases remaining
  {
    var n := NextSize(remaining);
    if i > 0 {
      CutIsFull(offset + n, remaining - n, sparse, i - 1);
    } else if remaining > 0x10_0000 {
      assert Cut(offset + n, remaining - n, sparse) != [];
    }
  }

  function Plan(extents: seq<Extent>): (chunks: seq<Chunk>) {
    if extents == [] then [] else Cut(extents[0].offset, extents[0].length, extents[0].sparse) + Plan(extents[1..])
  }

  /** A chunk's bytes: the source's, or zeros when it is sparse or could not be read. */
  function Piece(source: int -> Byte, c: Chunk, lost: bool): (bytes: seq<Byte>)
    ensures |bytes| == c.length
  {
    if c.sparse || lost then Zeros(c.length) else Slice(source, c.offset, c.length)
  }

  /** What became of a planned chunk. */
  datatype Reading = Reading(chunk: Chunk, lost: bool)

  /** The bytes that were read, one chunk after the other. */
  function Fill(source: int -> Byte, readings: seq<Reading>): (content: seq<Byte>) {
    if readings == [] then []
    else Fill(source, readings[..|readings| - 1]) + LastPiece(source, readings)
  }

  function LastPiece(source: int -> Byte, readings: seq<Reading>): seq<Byte>
    requires readings != []
  {
    Piece(source, readings[|readings| - 1].chunk, readings[|readings| - 1].lost)
  }

  /** Where the next chunk's bytes begin. */
  function Start(readings: seq<Reading>): nat {
    if readings == [] then 0 else Start(readings[..|readings| - 1]) + readings[|readings| - 1].chunk.length
  }

  lemma FillLast(source: int -> Byte, readings: seq<Reading>, r: Reading)
    ensures Fill(source, readings + [r]) == Fill(source, readings) + Piece(source, r.chunk, r.lost)
  {
    assert (readings + [r])[..|readings|] == readings;
  }

  lemma {:induction false} FillConcat(source: int -> Byte, a: seq<Reading>, b: seq<Reading>)
    ensures Fill(source, a + b) == Fill(source, a) + Fill(source, b)
    decreases |b|
  {
    if b == [] {
      assert a + b == a;
    } else {
      var front, r := b[..|b| - 1], b[|b| - 1];
      FillConcat(source, a, front);
      FillLast(source, a + front, r);
      assert b == front + [r];
      assert (a + front) + [r] == a + b;
      FillLast(source, front, r);
      Regroup(Fill(source, a), Fill(source, front), Piece(source, r.chunk, r.lost));
    }
  }

  /** Nothing lost. */
  function AllRead(chunks: seq<Chunk>): (readings: seq<Reading>)
    ensures |readings| == |chunks|
    ensures forall i :: 0 <= i < |chunks| ==> readings[i] == Reading(chunks[i], false)
  {
    seq(|chunks|, i requires 0 <= i < |chunks| => Reading(chunks[i], false))
  }

  lemma AllReadConcat(source: int -> Byte, a: seq<Chunk>, b: seq<Chunk>)
    ensures Fill(source, AllRead(a + b)) == Fill(source, AllRead(a)) + Fill(source, AllRead(b))
  {
    assert AllRead(a + b) == AllRead(a) + AllRead(b);
    FillConcat(source, AllRead(a), AllRead(b));
  }

  lemma FillOne(source: int -> Byte, c: Chunk)
    ensures Fill(source, AllRead([c])) == Piece(source, c, false)
  {
    FillLast(source, [], Reading(c, false));
    assert [] + [Reading(c, false)] == AllRead([c]);
  }

  lemma ConsExact(source: int -> Byte, c: Chunk, rest: seq<Chunk>)
    ensures Fill(source, AllRead([c] + rest)) == Piece(source, c, false) + Fill(source, AllRead(rest))
  {
    AllReadConcat(source, [c], rest);
    FillOne(source, c);
  }

  lemma {:induction false} CutIsExact(source: int -> Byte, offset: int, length: nat, sparse: bool)
    ensures Fill(source, AllRead(Cut(offset, length, sparse))) == Piece(source, Chunk(offset, length, sparse), false)
    decreases length
  {
    if length == 0 {
      NothingToCut(source, offset, sparse);
    } else {
      var n := NextSize(length);
      CutIsExact(source, offset + n, length - n, sparse);
      CutOneMore(source, offset, n, length, sparse, Cut(offset + n, length - n, sparse));
    }
  }

  lemma NothingToCut(source: int -> Byte, offset: int, sparse: bool)
    ensures Fill(source, AllRead(Cut(offset, 0, sparse))) == Piece(source, Chunk(offset, 0, sparse), false)
  {
    assert AllRead([]) == [];
    assert Fill(source, []) == [];
  }

  lemma CutOneMore(source: int -> Byte, offset: int, n: nat, length: nat, sparse: bool, rest: seq<Chunk>)
    requires n <= length
    requires Fill(source, AllRead(rest)) == Piece(source, Chunk(offset + n, length - n, sparse), false)
    ensures Fill(source, AllRead([Chunk(offset, n, sparse)] + rest)) ==
      Piece(source, Chunk(offset, length, sparse), false)
  {
    ConsExact(source, Chunk(offset, n, sparse), rest);
    PieceSplits(source, offset, n, length, sparse);
  }

  lemma PieceSplits(source: int -> Byte, offset: int, n: nat, length: nat, sparse: bool)
    requires n <= length
    ensures var first, rest := Chunk(offset, n, sparse), Chunk(offset + n, length - n, sparse);
      Piece(source, first, false) + Piece(source, rest, false) == Piece(source, Chunk(offset, length, sparse), false)
  {
  }

  /** With nothing lost, reading chunk by chunk gives exactly the extents' bytes. */
  lemma {:induction false} PlanIsExact(source: int -> Byte, extents: seq<Extent>)
    requires Wellformed(extents)
    ensures Fill(source, AllRead(Plan(extents))) == Flat(source, extents)
    decreases |extents|
  {
    if extents != [] {
      var e := extents[0];
      CutIsExact(source, e.offset, e.length, e.sparse);
      PlanIsExact(source, extents[1..]);
      AllReadConcat(source, Cut(e.offset, e.length, e.sparse), Plan(extents[1..]));
    }
  }

  lemma {:induction false} FillLength(source: int -> Byte, readings: seq<Reading>)
    ensures |Fill(source, readings)| == Start(readings)
    decreases |readings|
  {
    if readings != [] {
      FillLength(source, readings[..|readings| - 1]);
    }
  }

  /** The readings follow a plan: its chunks, in its order. */
  ghost predicate Follows(readings: seq<Reading>, chunks: seq<Chunk>) {
    |readings| == |chunks| && forall i :: 0 <= i < |chunks| ==> readings[i].chunk == chunks[i]
  }

  /** Where a chunk's bytes stand does not depend on what was lost. */
  lemma {:induction false} SameStart(p: seq<Reading>, q: seq<Reading>)
    requires |p| == |q| && forall i :: 0 <= i < |p| ==> p[i].chunk == q[i].chunk
    ensures Start(p) == Start(q)
    decreases |p|
  {
    if p != [] {
      SameStart(p[..|p| - 1], q[..|q| - 1]);
    }
  }

  lemma {:induction false} ReadingAt(source: int -> Byte, readings: seq<Reading>, k: nat)
    requires k < |readings|
    ensures var from := Start(readings[..k]);
      var to := from + readings[k].chunk.length;
      && to <= |Fill(source, readings)|
      && Fill(source, readings)[from..to] == Piece(source, readings[k].chunk, readings[k].lost)
    decreases |readings|
  {
    var front := readings[..|readings| - 1];
    FillLength(source, front);
    if k < |readings| - 1 {
      ReadingAt(source, front, k);
      assert front[..k] == readings[..k];
      var from := Start(readings[..k]);
      SliceOfPrefix(Fill(source, front), LastPiece(source, readings), from, from + readings[k].chunk.length);
    }
  }

  lemma SliceOfPrefix(x: seq<Byte>, y: seq<Byte>, from: nat, to: nat)
    requires from <= to <= |x|
    ensures (x + y)[from..to] == x[from..to]
  {
  }

  /**
    * Damage stays where it is: a chunk that was read, or is sparse, holds exactly what the
    * extents hold there, and a chunk that was lost holds zeros.
    */
  lemma ChunkIsSourceOrZeros(source: int -> Byte, extents: seq<Extent>, readings: seq<Reading>, k: nat)
    requires Wellformed(extents) && Follows(readings, Plan(extents)) && k < |readings|
    ensures var from := Start(readings[..k]);
      var to := from + readings[k].chunk.length;
      && to <= |Fill(source, readings)| == |Flat(source, extents)|
      && Fill(source, readings)[from..to] ==
        if readings[k].lost then Zeros(to - from) else Flat(source, extents)[from..to]
  {
    var all := AllRead(Plan(extents));
    PlanIsExact(source, extents);
    FillLength(source, readings);
    FillLength(source, all);
    SameStart(readings, all);
    SameStart(readings[..k], all[..k]);
    ReadingAt(source, readings, k);
    ReadingAt(source, all, k);
  }

  /** `sum_extent_lengths` of well-formed extents. */
  function TotalLength(extents: seq<Extent>): nat
    requires Wellformed(extents)
  {
    if extents == [] then 0 else TotalLength(extents[..|extents| - 1]) + extents[|extents| - 1].length
  }

  lemma {:induction false} TotalConcat(a: seq<Extent>, b: seq<Extent>)
    requires Wellformed(a) && Wellformed(b)
    ensures TotalLength(a + b) == TotalLength(a) + TotalLength(b)
    decreases |b|
  {
    if b == [] {
      assert a + b == a;
    } else {
      var n := |b| - 1;
      assert (a + b)[..|a| + n] == a + b[..n];
      TotalConcat(a, b[..n]);
    }
  }

  lemma {:induction false} FlatLength(source: int -> Byte, extents: seq<Extent>)
    requires Wellformed(extents)
    ensures |Flat(source, extents)| == TotalLength(extents)
    decreases |extents|
  {
    if extents != [] {
      FlatLength(source, extents[1..]);
      TotalConcat([extents[0]], extents[1..]);
      assert [extents[0]] + extents[1..] == extents;
      assert [extents[0]][..0] == [];
    }
  }
}
