/** Keys in the order of an ORDER BY, and the first of them up to a LIMIT. */
module Keyset {

  /** A key: what is ordered by first, and an id that breaks ties. */
  datatype Key = Key(major: int, minor: nat)

  predicate Before(a: Key, b: Key) {
    a.major < b.major || (a.major == b.major && a.minor < b.minor)
  }

  ghost predicate SortedKeys(page: seq<Key>) {
    forall i, j :: 0 <= i < j < |page| ==> Before(page[i], page[j])
  }

  /** What `ORDER BY … LIMIT` returns of these keys: the least, at most `limit` of them. */
  ghost predicate IsPage(keys: set<Key>, limit: nat, page: seq<Key>) {
    && SortedKeys(page) && |page| <= limit
    && (forall k :: k in page ==> k in keys)
    && (forall k :: k in keys && k !in page ==> |page| == limit && forall p :: p in page ==> Before(p, k))
  }

  /** The key stands in the list, at one place only. */
  ghost predicate Once(list: seq<Key>, k: Key) {
    exists p :: 0 <= p < |list| && list[p] == k && forall q :: 0 <= q < |list| && q != p ==> list[q] != k
  }

  lemma SortedHoldsOnce(list: seq<Key>, k: Key)
    requires SortedKeys(list) && k in list
    ensures Once(list, k)
  {
    var p :| 0 <= p < |list| && list[p] == k;
    forall q | 0 <= q < |list| && q != p ensures list[q] != k {
      assert if q < p then Before(list[q], list[p]) else Before(list[p], list[q]);
    }
  }

  method LeastKeys(keys: set<Key>, limit: nat) returns (page: seq<Key>)
    ensures IsPage(keys, limit, page)
  {
    page := [];
    var rest := keys;
    while rest != {} && |page| < limit
      invariant rest <= keys && SortedKeys(page) && |page| <= limit
      invariant forall k :: k in page <==> k in keys && k !in rest
      invariant forall p, k :: p in page && k in rest ==> Before(p, k)
      decreases |rest|
    {
      var least := LeastKey(rest);
      assert forall i :: 0 <= i < |page| ==> page[i] in page;
      page := page + [least];
      rest := rest - {least};
    }
  }

  method LeastKey(keys: set<Key>) returns (least: Key)
    requires keys != {}
    ensures least in keys && forall k :: k in keys && k != least ==> Before(least, k)
  {
    least :| least in keys;
    var rest := keys - {least};
    while rest != {}
      invariant rest <= keys && least in keys
      invariant forall k :: k in keys && k !in rest && k != least ==> Before(least, k)
      decreases |rest|
    {
      var k :| k in rest;
      if Before(k, least) {
        least := k;
      }
      rest := rest - {k};
    }
  }

  /** One key more than asked for tells whether there are more. */
  lemma ShorterPage(keys: set<Key>, limit: nat, rows: seq<Key>)
    requires IsPage(keys, limit + 1, rows)
    ensures |rows| <= limit ==> IsPage(keys, limit, rows) && forall k :: k in keys ==> k in rows
    ensures |rows| > limit ==>
      IsPage(keys, limit, rows[..limit]) && rows[limit] in keys && rows[limit] !in rows[..limit]
  {
    if |rows| > limit {
      var page := rows[..limit];
      forall k | k in keys && k !in page ensures forall p :: p in page ==> Before(p, k) {
        forall p | p in page ensures Before(p, k) {
          assert p in rows;
          if k in rows {
            var j :| 0 <= j < |rows| && rows[j] == k;
            assert j >= limit;
          }
        }
      }
      assert rows[limit] in rows;
    }
  }

  /** The data decides the page. */
  lemma {:induction false} PageIsUnique(keys: set<Key>, limit: nat, a: seq<Key>, b: seq<Key>)
    requires IsPage(keys, limit, a) && IsPage(keys, limit, b)
    ensures a == b
    decreases limit
  {
    EmptyPage(keys, limit, a);
    EmptyPage(keys, limit, b);
    if a != [] {
      var least := a[0];
      FirstIsLeast(keys, limit, a);
      FirstIsLeast(keys, limit, b);
      RestIsPage(keys, limit, a);
      RestIsPage(keys, limit, b);
      PageIsUnique(keys - {least}, limit - 1, a[1..], b[1..]);
      assert a == [least] + a[1..] && b == [least] + b[1..];
    }
  }

  lemma EmptyPage(keys: set<Key>, limit: nat, page: seq<Key>)
    requires IsPage(keys, limit, page)
    ensures page == [] <==> limit == 0 || keys == {}
  {
    if page != [] {
      assert page[0] in page;
    }
  }

  lemma FirstIsLeast(keys: set<Key>, limit: nat, page: seq<Key>)
    requires IsPage(keys, limit, page) && page != []
    ensures page[0] in keys && forall k :: k in keys && k != page[0] ==> Before(page[0], k)
  {
    assert page[0] in page;
  }

  lemma RestIsPage(keys: set<Key>, limit: nat, page: seq<Key>)
    requires IsPage(keys, limit, page) && page != []
    ensures IsPage(keys - {page[0]}, limit - 1, page[1..])
  {
    assert page[0] in page;
    forall k | k in page[1..] ensures k in page && k != page[0] {
    }
    forall k | k in page && k != page[0] ensures k in page[1..] {
      var i :| 0 <= i < |page| && page[i] == k;
      assert page[1..][i - 1] == k;
    }
  }
}
