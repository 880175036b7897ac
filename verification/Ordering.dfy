/** Sorting a set of ids, as `sorted` and `ORDER BY` do. */
module Ordering {
  import opened Collections

  type Id = nat

  function Elements(s: seq<Id>): set<Id> {
    set x | x in s
  }

  /** The list is the set, in order. */
  ghost predicate Sorts(list: seq<Id>, s: set<Id>) {
    Ascending(list) && Elements(list) == s
  }

  /** `sorted` on a set. */
  method Sorted(s: set<Id>) returns (list: seq<Id>)
    ensures Ascending(list)
    ensures forall x :: x in list <==> x in s
  {
    list := [];
    var rest := s;
    while rest != {}
      invariant rest <= s && Ascending(list)
      invariant forall x :: x in list <==> x in s && x !in rest
      invariant forall x, y :: x in list && y in rest ==> x < y
      decreases |rest|
    {
      var least := LeastOf(rest);
      assert forall i :: 0 <= i < |list| ==> list[i] in list;
      list := list + [least];
      rest := rest - {least};
    }
  }

  method LeastOf(s: set<Id>) returns (least: Id)
    requires s != {}
    ensures least in s && forall x :: x in s ==> least <= x
  {
    least :| least in s;
    var rest := s - {least};
    while rest != {}
      invariant rest <= s && least in s
      invariant forall x :: x in s && x !in rest ==> least <= x
      decreases |rest|
    {
      var x :| x in rest;
      if x < least {
        least := x;
      }
      rest := rest - {x};
    }
  }

  lemma FirstIsElement(a: seq<Id>)
    ensures if a == [] then Elements(a) == {} else a[0] in Elements(a)
  {
  }

  /** There is one way to sort a set. */
  lemma {:induction false} AscendingIsUnique(a: seq<Id>, b: seq<Id>)
    requires Ascending(a) && Ascending(b) && Elements(a) == Elements(b)
    ensures a == b
    decreases |a|
  {
    FirstIsElement(a);
    FirstIsElement(b);
    if a != [] {
      assert a[0] == b[0];
      forall x ensures x in Elements(a[1..]) <==> x in Elements(b[1..]) {
        assert x in Elements(a[1..]) <==> x in Elements(a) && x != a[0];
        assert x in Elements(b[1..]) <==> x in Elements(b) && x != b[0];
      }
      AscendingIsUnique(a[1..], b[1..]);
      assert a == [a[0]] + a[1..] && b == [b[0]] + b[1..];
    }
  }
}
