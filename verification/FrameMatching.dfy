/** `_matching_frames`: greedy one-to-one matching of keyframe hashes. */
module FrameMatching {
  import opened Collections

  /** When two frame hashes are within the threshold. */
  type Close = (nat, nat) -> bool

  ghost predicate OneToOne(m: map<nat, nat>) {
    forall i, j {:trigger m[i], m[j]} :: i in m && j in m && i != j ==> m[i] != m[j]
  }

  /** A one-to-one choice of right frames for some left frames, every pair close. */
  ghost predicate Matching(left: seq<nat>, right: seq<nat>, close: Close, m: map<nat, nat>) {
    && (forall i {:trigger m[i]} :: i in m ==> i < |left| && m[i] < |right| && close(left[i], right[m[i]]))
    && OneToOne(m)
  }

  /** The left frames matched so far with their right frames, and the right frames in use. */
  datatype Choice = Choice(pairs: map<nat, nat>, used: set<nat>)

  /** The first unused right frame from `index` on that is close to `frame`, or `|right|`. */
  function FirstFree(frame: nat, right: seq<nat>, close: Close, used: set<nat>, index: nat): (j: nat)
    requires index <= |right|
    ensures index <= j <= |right|
    ensures j < |right| ==> j !in used && close(frame, right[j])
    ensures forall k {:trigger right[k]} :: index <= k < j ==> k in used || !close(frame, right[k])
    decreases |right| - index
  {
    if index == |right| || (index !in used && close(frame, right[index])) then index
    else FirstFree(frame, right, close, used, index + 1)
  }

  /** What each of the first `n` left frames takes when each takes the first free right frame. */
  ghost function Greedy(left: seq<nat>, right: seq<nat>, close: Close, n: nat): Choice
    requires n <= |left|
  {
    if n == 0 then Choice(map[], {})
    else TakeFirst(left, right, close, n - 1, Greedy(left, right, close, n - 1))
  }

  ghost function TakeFirst(left: seq<nat>, right: seq<nat>, close: Close, n: nat, c: Choice): Choice
    requires n < |left|
  {
    var j := FirstFree(left[n], right, close, c.used, 0);
    if j < |right| then Choice(c.pairs[n := j], c.used + {j}) else c
  }

  /** The inner loop, up to its break: finds the first free frame, or none. */
  method FindFree(frame: nat, right: seq<nat>, close: Close, used: set<nat>) returns (index: nat)
    ensures index == FirstFree(frame, right, close, used, 0)
  {
    index := 0;
    while index < |right|
      invariant index <= |right|
      invariant FirstFree(frame, right, close, used, 0) == FirstFree(frame, right, close, used, index)
    {
      if index !in used && close(frame, right[index]) {
        break;
      }
      index := index + 1;
    }
  }

  lemma GreedyNext(left: seq<nat>, right: seq<nat>, close: Close, n: nat, j: nat)
    requires n < |left| && j == FirstFree(left[n], right, close, Greedy(left, right, close, n).used, 0)
    ensures j < |right| ==> j !in Greedy(left, right, close, n).used
    ensures Greedy(left, right, close, n + 1).used ==
      Greedy(left, right, close, n).used + if j < |right| then {j} else {}
  {
  }

  /** Matches each left frame with the first unused close right frame. */
  method MatchingFrames(left: seq<nat>, right: seq<nat>, close: Close) returns (matches: nat)
    ensures matches == |Greedy(left, right, close, |left|).used|
  {
    matches := 0;
    var used: set<nat> := {};
    for row := 0 to |left|
      invariant used == Greedy(left, right, close, row).used && matches == |used|
    {
      var index := FindFree(left[row], right, close, used);
      GreedyNext(left, right, close, row, index);
      if index < |right| {
        used := used + {index};
        matches := matches + 1;
      }
    }
  }

  /** A choice for the first `n` left frames that uses one right frame for each matched left frame. */
  ghost predicate Consistent(left: seq<nat>, right: seq<nat>, close: Close, n: nat, c: Choice) {
    && Matching(left, right, close, c.pairs)
    && |c.pairs| == |c.used|
    && PartnersUsed(c.pairs, c.used, n)
  }

  lemma TakingAFreeFrame(left: seq<nat>, right: seq<nat>, close: Close, n: nat, c: Choice)
    requires n < |left| && Consistent(left, right, close, n, c)
    ensures Consistent(left, right, close, n + 1, TakeFirst(left, right, close, n, c))
  {
    var j := FirstFree(left[n], right, close, c.used, 0);
    if j < |right| {
      OnePairMore(left, right, close, n, c, j);
    }
  }

  lemma OnePairMore(left: seq<nat>, right: seq<nat>, close: Close, n: nat, c: Choice, j: nat)
    requires n < |left| && Consistent(left, right, close, n, c)
    requires j < |right| && j !in c.used && close(left[n], right[j])
    ensures Consistent(left, right, close, n + 1, Choice(c.pairs[n := j], c.used + {j}))
  {
    OneToOneMore(c.pairs, c.used, n, j);
  }

  /** Every left frame comes before the `n`-th, and its partner is in use. */
  ghost predicate PartnersUsed(m: map<nat, nat>, used: set<nat>, n: nat) {
    forall i {:trigger m[i]} :: i in m ==> i < n && m[i] in used
  }

  lemma OneToOneMore(m: map<nat, nat>, used: set<nat>, n: nat, j: nat)
    requires OneToOne(m) && PartnersUsed(m, used, n) && j !in used
    ensures OneToOne(m[n := j]) && PartnersUsed(m[n := j], used + {j}, n + 1)
    ensures |m[n := j]| == |m| + 1
  {
    forall i | i in m ensures i < n {
      assert m[i] in used;
    }
    assert m == m[n := j] - {n};
  }

  lemma GreedyStepIsConsistent(left: seq<nat>, right: seq<nat>, close: Close, n: nat)
    requires n < |left| && Consistent(left, right, close, n, Greedy(left, right, close, n))
    ensures Consistent(left, right, close, n + 1, Greedy(left, right, close, n + 1))
  {
    var c := Greedy(left, right, close, n);
    TakingAFreeFrame(left, right, close, n, c);
    assert Greedy(left, right, close, n + 1) == TakeFirst(left, right, close, n, c);
  }

  /** The greedy choice is a one-to-one matching, of as many left frames as right ones. */
  lemma {:induction false} GreedyIsMatching(left: seq<nat>, right: seq<nat>, close: Close, n: nat)
    requires n <= |left|
    ensures Consistent(left, right, close, n, Greedy(left, right, close, n))
  {
    assert Greedy(left, right, close, 0) == Choice(map[], {});
    for k := 0 to n
      invariant Consistent(left, right, close, k, Greedy(left, right, close, k))
    {
      GreedyStepIsConsistent(left, right, close, k);
    }
  }

  /** Every close pair has an end that the greedy choice already uses, so nothing can be added to it. */
  lemma {:induction false} GreedyIsMaximal(left: seq<nat>, right: seq<nat>, close: Close, n: nat, i: nat, j: nat)
    requires i < n <= |left| && j < |right| && close(left[i], right[j])
    ensures i in Greedy(left, right, close, n).pairs || j in Greedy(left, right, close, n).used
  {
    if i < n - 1 {
      GreedyIsMaximal(left, right, close, n - 1, i, j);
    }
  }

  /** Whatever the greedy loop returns, no one-to-one matching is more than twice as large. */
  lemma GreedyIsHalfOptimal(left: seq<nat>, right: seq<nat>, close: Close, other: map<nat, nat>)
    requires Matching(left, right, close, other)
    ensures |other| <= 2 * |Greedy(left, right, close, |left|).used|
  {
    var greedy := Greedy(left, right, close, |left|);
    GreedyIsMatching(left, right, close, |left|);
    var shared, rest := other.Keys * greedy.pairs.Keys, other.Keys - greedy.pairs.Keys;
    assert other.Keys == shared + rest;
    SubsetIsNoLarger(shared, greedy.pairs.Keys);
    var images := set i | i in rest :: other[i];
    OneToOneImages(other, rest);
    forall v | v in images ensures v in greedy.used {
      var i :| i in rest && other[i] == v;
      GreedyIsMaximal(left, right, close, |left|, i, v);
    }
    SubsetIsNoLarger(images, greedy.used);
    assert |greedy.pairs.Keys| == |greedy.pairs| && |other.Keys| == |other|;
  }

  lemma {:induction false} OneToOneImages(m: map<nat, nat>, keys: set<nat>)
    requires forall i :: i in keys ==> i in m
    requires forall i, j {:trigger m[i], m[j]} :: i in m && j in m && i != j ==> m[i] != m[j]
    ensures |set i | i in keys :: m[i]| == |keys|
    decreases keys
  {
    var images := set i | i in keys :: m[i];
    if keys != {} {
      var i :| i in keys;
      OneToOneImages(m, keys - {i});
      assert images - {m[i]} == set j | j in keys - {i} :: m[j];
      assert m[i] in images;
    }
  }
}
