/** worker/ai_budget.py: greedy contiguous batches, and overlapping text chunks. */
module AiBudget {
  import opened Collections
  import opened Wrappers

  datatype Error = InvalidBatchLimits | OversizedItem | InvalidChunkLimits

  /** An item, reduced to the length of its JSON text. */
  type Item = nat

  function Total(items: seq<Item>): nat {
    if items == [] then 0 else Total(items[..|items| - 1]) + items[|items| - 1]
  }

  ghost predicate Within(batch: seq<Item>, maxSize: int, maxBytes: int) {
    batch != [] && |batch| <= maxSize && Total(batch) <= maxBytes
  }

  /** A split of the items into contiguous, non-empty batches that respect both limits. */
  ghost predicate IsSplit(items: seq<Item>, batches: seq<seq<Item>>, maxSize: int, maxBytes: int) {
    Flatten(batches) == items && forall b :: b in batches ==> Within(b, maxSize, maxBytes)
  }

  /** Batch `k` could not have taken the item that follows it. */
  ghost predicate Full(batches: seq<seq<Item>>, k: nat, maxSize: int, maxBytes: int) {
    && k + 1 < |batches| && batches[k + 1] != []
    && (|batches[k]| >= maxSize || Total(batches[k]) + batches[k + 1][0] > maxBytes)
  }

  ghost predicate AllFull(batches: seq<seq<Item>>, maxSize: int, maxBytes: int) {
    forall k: nat :: k + 1 < |batches| ==> Full(batches, k, maxSize, maxBytes)
  }

  /** Batches items in order; an item larger than a whole batch is refused, never split. */
  method BatchItems(items: seq<Item>, maxSize: int, maxBytes: int) returns (r: Result<seq<seq<Item>>, Error>)
    ensures r == Err(InvalidBatchLimits) <==> maxSize <= 0 || maxBytes <= 0
    ensures r == Err(OversizedItem) <==>
      maxSize > 0 && maxBytes > 0 && exists i :: 0 <= i < |items| && items[i] > maxBytes
    ensures r.Ok? ==> IsSplit(items, r.value, maxSize, maxBytes) && AllFull(r.value, maxSize, maxBytes)
  {
    if maxSize <= 0 || maxBytes <= 0 {
      return Err(InvalidBatchLimits);
    }
    var batches: seq<seq<Item>>, current: seq<Item>, currentBytes := [], [], 0;
    for n := 0 to |items|
      invariant forall i :: 0 <= i < n ==> items[i] <= maxBytes
      invariant Flatten(batches) + current == items[..n] && currentBytes == Total(current)
      invariant forall b :: b in batches ==> Within(b, maxSize, maxBytes)
      invariant current == [] <==> n == 0
      invariant current != [] ==> Within(current, maxSize, maxBytes) && AllFull(batches + [current], maxSize, maxBytes)
      invariant current == [] ==> batches == []
    {
      var item := items[n];
      if item > maxBytes {
        return Err(OversizedItem);
      }
      assert items[..n + 1] == items[..n] + [item];
      if current != [] && (|current| >= maxSize || currentBytes + item > maxBytes) {
        NextBatch(batches, current, item, maxSize, maxBytes);
        batches := batches + [current];
        current, currentBytes := [], 0;
      } else {
        SameBatch(batches, current, item, maxSize, maxBytes);
      }
      assert (current + [item])[..|current|] == current;
      current, currentBytes := current + [item], currentBytes + item;
    }
    assert items[..|items|] == items;
    if current != [] {
      FlattenSnoc(batches, current);
      batches := batches + [current];
    }
    r := Ok(batches);
  }

  lemma NextBatch(batches: seq<seq<Item>>, current: seq<Item>, item: Item, maxSize: int, maxBytes: int)
    requires current != [] && AllFull(batches + [current], maxSize, maxBytes)
    requires |current| >= maxSize || Total(current) + item > maxBytes
    ensures AllFull(batches + [current] + [[item]], maxSize, maxBytes)
    ensures Flatten(batches + [current]) == Flatten(batches) + current
  {
    FlattenSnoc(batches, current);
    var was, now := batches + [current], batches + [current] + [[item]];
    forall k: nat | k + 1 < |now| ensures Full(now, k, maxSize, maxBytes) {
      if k + 1 < |was| {
        assert Full(was, k, maxSize, maxBytes);
      }
    }
  }

  lemma SameBatch(batches: seq<seq<Item>>, current: seq<Item>, item: Item, maxSize: int, maxBytes: int)
    requires current != [] ==> AllFull(batches + [current], maxSize, maxBytes)
    requires current == [] ==> batches == []
    ensures AllFull(batches + [current + [item]], maxSize, maxBytes)
  {
    var was, now := batches + [current], batches + [current + [item]];
    forall k: nat | k + 1 < |now| ensures Full(now, k, maxSize, maxBytes) {
      assert Full(was, k, maxSize, maxBytes);
    }
  }

  // ----- No contiguous split within the limits uses fewer batches -----

  lemma {:induction false} TotalConcat(a: seq<Item>, b: seq<Item>)
    ensures Total(a + b) == Total(a) + Total(b)
    decreases |b|
  {
    if b == [] {
      assert a + b == a;
    } else {
      var n := |b| - 1;
      assert (a + b)[..|a + b| - 1] == a + b[..n];
      TotalConcat(a, b[..n]);
    }
  }

  /** The first `k` batches of a split end at this position. */
  ghost function End(batches: seq<seq<Item>>, k: nat): nat
    requires k <= |batches|
  {
    |Flatten(batches[..k])|
  }

  lemma EndStep(batches: seq<seq<Item>>, k: nat)
    requires k < |batches|
    ensures Flatten(batches[..k + 1]) == Flatten(batches[..k]) + batches[k]
    ensures End(batches, k + 1) == End(batches, k) + |batches[k]|
  {
    assert batches[..k + 1][..k] == batches[..k];
  }

  /** Batch `k` is the piece of the items between the ends. */
  lemma {:induction false} BatchIsPiece(items: seq<Item>, batches: seq<seq<Item>>, k: nat, n: nat)
    requires k < n <= |batches| && Flatten(batches[..n]) <= items
    ensures End(batches, k) <= End(batches, k + 1) <= |items|
    ensures batches[k] == items[End(batches, k)..End(batches, k + 1)]
    ensures Flatten(batches[..k]) <= items
    decreases n - k
  {
    EndStep(batches, k);
    if n == k + 1 {
      EndStep(batches, k);
      var f := Flatten(batches[..k]);
      assert f + batches[k] <= items;
    } else {
      EndStep(batches, n - 1);
      assert Flatten(batches[..n - 1]) <= items;
      BatchIsPiece(items, batches, k, n - 1);
    }
  }

  lemma PieceOf(items: seq<Item>, batches: seq<seq<Item>>, k: nat)
    requires k < |batches| && Flatten(batches) == items
    ensures End(batches, k) <= End(batches, k + 1) <= |items|
    ensures batches[k] == items[End(batches, k)..End(batches, k + 1)]
  {
    assert batches[..|batches|] == batches;
    BatchIsPiece(items, batches, k, |batches|);
  }

  /** Where a full batch ends and what limit it meets there. */
  lemma FullPiece(items: seq<Item>, batches: seq<seq<Item>>, k: nat, maxSize: int, maxBytes: int)
    requires k + 1 < |batches| && Flatten(batches) == items && AllFull(batches, maxSize, maxBytes)
    ensures End(batches, k) <= End(batches, k + 1) < |items|
    ensures End(batches, k + 1) - End(batches, k) >= maxSize
      || Total(items[End(batches, k)..End(batches, k + 1)]) + items[End(batches, k + 1)] > maxBytes
  {
    PieceOf(items, batches, k);
    PieceOf(items, batches, k + 1);
    assert Full(batches, k, maxSize, maxBytes);
    assert batches[k + 1][0] == items[End(batches, k + 1)];
  }

  /** The last end is the end of the items. */
  lemma LastEnd(items: seq<Item>, batches: seq<seq<Item>>)
    requires Flatten(batches) == items
    ensures End(batches, |batches|) == |items|
  {
    assert batches[..|batches|] == batches;
  }

  /** Greedy stays ahead: its k-th end is never before the k-th end of another split. */
  lemma {:induction false} GreedyStaysAhead(
    items: seq<Item>, greedy: seq<seq<Item>>, other: seq<seq<Item>>, maxSize: int, maxBytes: int, k: nat)
    requires IsSplit(items, greedy, maxSize, maxBytes) && AllFull(greedy, maxSize, maxBytes)
    requires IsSplit(items, other, maxSize, maxBytes)
    requires k <= |greedy| && k <= |other|
    ensures End(other, k) <= End(greedy, k)
  {
    if k > 0 {
      GreedyStaysAhead(items, greedy, other, maxSize, maxBytes, k - 1);
      var a, b, c, d := End(other, k - 1), End(greedy, k - 1), End(greedy, k), End(other, k);
      PieceOf(items, other, k - 1);
      if k == |greedy| {
        LastEnd(items, greedy);
      } else if c < d {
        FullPiece(items, greedy, k - 1, maxSize, maxBytes);
        assert other[k - 1] in other;
        FullPieceIsNotExceeded(items, a, b, c, d, maxSize, maxBytes);
      }
    }
  }

  /** No piece within the limits reaches over a full batch and the item after it. */
  lemma FullPieceIsNotExceeded(items: seq<Item>, a: nat, b: nat, c: nat, d: nat, maxSize: int, maxBytes: int)
    requires a <= b <= c < d <= |items|
    requires c - b >= maxSize || Total(items[b..c]) + items[c] > maxBytes
    ensures !Within(items[a..d], maxSize, maxBytes)
  {
    PieceTotals(items, a, b, c, d);
  }

  /** A piece that contains another and the item after it is at least as large. */
  lemma PieceTotals(items: seq<Item>, a: nat, b: nat, c: nat, d: nat)
    requires a <= b <= c < d <= |items|
    ensures Total(items[b..c]) + items[c] <= Total(items[a..d])
  {
    assert items[a..d] == items[a..b] + items[b..d];
    assert items[b..d] == items[b..c] + items[c..d];
    assert items[c..d] == [items[c]] + items[c + 1..d];
    assert [items[c]][..0] == [];
    TotalConcat(items[a..b], items[b..d]);
    TotalConcat(items[b..c], items[c..d]);
    TotalConcat([items[c]], items[c + 1..d]);
  }

  /** The batches of `BatchItems` are as few as any contiguous split within the limits can have. */
  lemma GreedyIsFewest(
    items: seq<Item>, greedy: seq<seq<Item>>, other: seq<seq<Item>>, maxSize: int, maxBytes: int)
    requires IsSplit(items, greedy, maxSize, maxBytes) && AllFull(greedy, maxSize, maxBytes)
    requires IsSplit(items, other, maxSize, maxBytes)
    ensures |greedy| <= |other|
  {
    if |other| < |greedy| {
      var k := |other|;
      assert greedy[k] in greedy;
      LastEnd(items, other);
      PieceOf(items, greedy, k);
      GreedyStaysAhead(items, greedy, other, maxSize, maxBytes, k);
    }
  }

  // ----- chunk_text -----

  /** The text that the chunks carry once the overlap is dropped from all but the first. */
  function WithoutOverlap(chunks: seq<string>, overlap: nat): string {
    if chunks == [] then ""
    else
      var last := chunks[|chunks| - 1];
      if |chunks| == 1 then last
      else WithoutOverlap(chunks[..|chunks| - 1], overlap) + if |last| >= overlap then last[overlap..] else ""
  }

  /** A full chunk, and one after it that repeats its end and goes on. */
  ghost predicate Follows(before: string, chunk: string, maxChars: int, overlap: int)
    requires 0 <= overlap < maxChars
  {
    |before| == maxChars && |chunk| > overlap && chunk[..overlap] == before[maxChars - overlap..]
  }

  /** Chunks of at most `maxChars`, all but the last of exactly that many, each repeating the end of the one before. */
  ghost predicate Chunked(chunks: seq<string>, maxChars: int, overlap: int)
    requires 0 <= overlap < maxChars
  {
    && (forall i {:trigger chunks[i]} :: 0 <= i < |chunks| ==> 0 < |chunks[i]| <= maxChars)
    && (forall i {:trigger chunks[i]} :: 0 < i < |chunks| ==> Follows(chunks[i - 1], chunks[i], maxChars, overlap))
  }

  /** The chunks carry the first `done` characters, the last chunk being the latest of them. */
  ghost predicate Carries(chunks: seq<string>, text: string, done: nat, maxChars: int, overlap: int)
    requires 0 <= overlap < maxChars && done <= |text|
  {
    && Chunked(chunks, maxChars, overlap) && WithoutOverlap(chunks, overlap) == text[..done]
    && (chunks == [] <==> done == 0)
    && (chunks != [] ==>
      |chunks[|chunks| - 1]| <= done && chunks[|chunks| - 1] == text[done - |chunks[|chunks| - 1]|..done])
  }

  lemma ChunkedSnoc(chunks: seq<string>, chunk: string, maxChars: int, overlap: int)
    requires 0 <= overlap < maxChars && Chunked(chunks, maxChars, overlap) && 0 < |chunk| <= maxChars
    requires chunks != [] ==> Follows(chunks[|chunks| - 1], chunk, maxChars, overlap)
    ensures Chunked(chunks + [chunk], maxChars, overlap)
  {
    var all := chunks + [chunk];
    forall i {:trigger all[i]} | 0 < i < |all| ensures Follows(all[i - 1], all[i], maxChars, overlap) {
      if i < |chunks| {
        assert all[i] == chunks[i];
      }
    }
  }

  lemma WithoutOverlapSnoc(chunks: seq<string>, chunk: string, overlap: nat)
    requires chunks != [] && |chunk| >= overlap
    ensures WithoutOverlap(chunks + [chunk], overlap) == WithoutOverlap(chunks, overlap) + chunk[overlap..]
  {
    assert (chunks + [chunk])[..|chunks|] == chunks;
  }

  lemma NextChunk(chunks: seq<string>, text: string, done: nat, end: nat, start: nat, maxChars: int, overlap: int)
    requires 0 <= overlap < maxChars && done < end <= |text| && Carries(chunks, text, done, maxChars, overlap)
    requires start == if chunks == [] then 0 else done - overlap
    requires chunks != [] ==> |chunks[|chunks| - 1]| == maxChars
    requires start <= end && end - start <= maxChars
    ensures Carries(chunks + [text[start..end]], text, end, maxChars, overlap)
  {
    var chunk := text[start..end];
    var all := chunks + [chunk];
    assert all != [] && all[|all| - 1] == chunk && |chunk| == end - start;
    if chunks == [] {
      assert all == [chunk] && chunk == text[..end];
    } else {
      var last := chunks[|chunks| - 1];
      OverlapIsRepeated(text, done, start, end, maxChars, overlap);
      assert Follows(last, chunk, maxChars, overlap);
      WithoutOverlapSnoc(chunks, chunk, overlap);
    }
    ChunkedSnoc(chunks, chunk, maxChars, overlap);
  }

  lemma OverlapIsRepeated(text: string, done: nat, start: nat, end: nat, maxChars: int, overlap: int)
    requires 0 <= overlap < maxChars <= done < end <= |text| && start == done - overlap
    ensures text[start..end][..overlap] == text[done - maxChars..done][maxChars - overlap..]
    ensures text[..done] + text[start..end][overlap..] == text[..end]
  {
  }

  method ChunkText(text: string, maxChars: int, overlap: int) returns (r: Result<seq<string>, Error>)
    ensures r == Err(InvalidChunkLimits) <==> maxChars <= 0 || overlap < 0 || overlap >= maxChars
    ensures r.Err? ==> r.error == InvalidChunkLimits
    ensures r.Ok? ==> WithoutOverlap(r.value, overlap) == text && Chunked(r.value, maxChars, overlap)
  {
    if maxChars <= 0 || overlap < 0 || overlap >= maxChars {
      return Err(InvalidChunkLimits);
    }
    var chunks: seq<string>, start: int, length := [], 0, |text|;
    if text == "" {
      return Ok(chunks);
    }
    ghost var done: nat := 0;
    while start < length
      invariant done <= length && Carries(chunks, text, done, maxChars, overlap)
      invariant 0 <= start < length && start == (if chunks == [] then 0 else done - overlap)
      invariant done < length && (chunks != [] ==> |chunks[|chunks| - 1]| == maxChars)
      decreases length - start
    {
      var end := if start + maxChars < length then start + maxChars else length;
      var chunk := text[start..end];
      NextChunk(chunks, text, done, end, start, maxChars, overlap);
      if chunk != "" {
        chunks := chunks + [chunk];
      }
      done := end;
      if end >= length {
        break;
      }
      var nextStart := if start + 1 > end - overlap then start + 1 else end - overlap;
      if nextStart <= start {
        break;
      }
      start := nextStart;
    }
    assert text[..length] == text;
    r := Ok(chunks);
  }
}
