/** The order in which Python (and SQLite's default collation) compares text. */
module TextOrder {

  /** Lexicographic comparison, code point by code point. */
  predicate Less(a: string, b: string) {
    |b| > 0 && (|a| == 0 || a[0] < b[0] || (a[0] == b[0] && Less(a[1..], b[1..])))
  }

  /** The first difference decides, and a text comes before its own continuations. */
  lemma {:induction false} FirstDifferenceDecides(prefix: string, a: string, b: string)
    requires b != "" && (a == "" || a[0] < b[0])
    ensures Less(prefix + a, prefix + b)
    decreases |prefix|
  {
    if prefix == "" {
      assert prefix + a == a && prefix + b == b;
    } else {
      FirstDifferenceDecides(prefix[1..], a, b);
      SameFirst(prefix + a, prefix + b, prefix[1..] + a, prefix[1..] + b);
    }
  }

  lemma SameFirst(a: string, b: string, restOfA: string, restOfB: string)
    requires a != "" && b != "" && a[0] == b[0] && a[1..] == restOfA && b[1..] == restOfB
    ensures Less(a, b) <==> Less(restOfA, restOfB)
  {
  }

  lemma {:induction false} LessIrreflexive(a: string)
    ensures !Less(a, a)
    decreases |a|
  {
    if a != [] {
      LessIrreflexive(a[1..]);
    }
  }

  lemma {:induction false} LessTransitive(a: string, b: string, c: string)
    requires Less(a, b) && Less(b, c)
    ensures Less(a, c)
    decreases |a|
  {
    if a != [] && a[0] == b[0] && b[0] == c[0] {
      LessTransitive(a[1..], b[1..], c[1..]);
    }
  }

  lemma {:induction false} LessTotal(a: string, b: string)
    ensures Less(a, b) || a == b || Less(b, a)
    decreases |a|
  {
    if a != [] && b != [] && a[0] == b[0] {
      LessTotal(a[1..], b[1..]);
      assert a == [a[0]] + a[1..] && b == [b[0]] + b[1..];
    }
  }

  lemma LessAsymmetric(a: string, b: string)
    requires Less(a, b)
    ensures !Less(b, a) && a != b
  {
    LessIrreflexive(a);
    if Less(b, a) {
      LessTransitive(a, b, a);
    }
  }
}
