/** Bytes, and the number formats that the checkpoint digest is built from. */
module Bytes {

  type Byte = b: nat | b < 256

  /** `n.to_bytes(k, "big")`, for `n` below `Power256(k)`. */
  function BigEndian(n: nat, k: nat): (bytes: seq<Byte>)
    ensures |bytes| == k
  {
    if k == 0 then [] else BigEndian(n / 256, k - 1) + [n % 256]
  }

  function Power256(k: nat): nat {
    if k == 0 then 1 else 256 * Power256(k - 1)
  }

  lemma {:induction false} BigEndianIsInjective(m: nat, n: nat, k: nat)
    requires m < Power256(k) && n < Power256(k) && BigEndian(m, k) == BigEndian(n, k)
    ensures m == n
  {
    if k > 0 {
      var a, b := BigEndian(m / 256, k - 1), BigEndian(n / 256, k - 1);
      assert BigEndian(m, k)[..k - 1] == a && BigEndian(n, k)[..k - 1] == b;
      assert BigEndian(m, k)[k - 1] == m % 256 && BigEndian(n, k)[k - 1] == n % 256;
      BigEndianIsInjective(m / 256, n / 256, k - 1);
    }
  }

  /** The number that bytes stand for, the most significant first. */
  function BigEndianValue(bytes: seq<Byte>): nat {
    if bytes == [] then 0 else bytes[0] * Power256(|bytes| - 1) + BigEndianValue(bytes[1..])
  }

  lemma {:induction false} BigEndianReadsBack(n: nat, k: nat)
    requires n < Power256(k)
    ensures BigEndianValue(BigEndian(n, k)) == n
  {
    if k > 0 {
      BigEndianReadsBack(n / 256, k - 1);
      LastByteAdds(BigEndian(n / 256, k - 1), n % 256);
    }
  }

  lemma {:induction false} LastByteAdds(bytes: seq<Byte>, last: Byte)
    ensures BigEndianValue(bytes + [last]) == 256 * BigEndianValue(bytes) + last
    decreases |bytes|
  {
    if bytes == [] {
      assert [last][1..] == [] && Power256(0) == 1;
    } else {
      LastByteAdds(bytes[1..], last);
      assert (bytes + [last])[1..] == bytes[1..] + [last];
      assert Power256(|bytes|) == 256 * Power256(|bytes| - 1);
      Scaled(bytes[0], Power256(|bytes| - 1));
    }
  }

  lemma Scaled(a: nat, b: nat)
    ensures a * (256 * b) == 256 * (a * b)
  {
  }

  /** `str(n)`, encoded. */
  function Decimal(n: nat): (digits: seq<Byte>)
    ensures digits != []
  {
    if n < 10 then [48 + n] else Decimal(n / 10) + [48 + n % 10]
  }

  function DecimalValue(digits: seq<Byte>): int {
    if digits == [] then 0
    else 10 * DecimalValue(digits[..|digits| - 1]) + (digits[|digits| - 1] as int - 48)
  }

  lemma {:induction false} DecimalReadsBack(n: nat)
    ensures DecimalValue(Decimal(n)) == n
  {
    var digits := Decimal(n);
    if n < 10 {
      assert digits[..0] == [];
    } else {
      assert digits[..|digits| - 1] == Decimal(n / 10);
      DecimalReadsBack(n / 10);
    }
  }

  // ----- Length-prefixed framing -----

  const LENGTH_BYTES: nat := 8

  /** A value that the length prefix can describe. */
  ghost predicate Framable(value: seq<Byte>) {
    |value| < Power256(LENGTH_BYTES)
  }

  /** What the digest is fed: each value after its length. */
  function Message(values: seq<seq<Byte>>): seq<Byte> {
    if values == [] then []
    else BigEndian(|values[0]|, LENGTH_BYTES) + values[0] + Message(values[1..])
  }

  /** Length, value, rest: the length decides where the value ends. */
  lemma SameFrame(p: seq<Byte>, q: seq<Byte>, x: seq<Byte>, y: seq<Byte>, restX: seq<Byte>, restY: seq<Byte>)
    requires |p| == |q| && (p == q ==> |x| == |y|)
    requires p + x + restX == q + y + restY
    ensures x == y && restX == restY
  {
    Regroup(p, x, restX);
    Regroup(q, y, restY);
    SamePrefix(p, q, x + restX, y + restY);
    SamePrefix(x, y, restX, restY);
  }

  lemma Regroup(p: seq<Byte>, x: seq<Byte>, rest: seq<Byte>)
    ensures p + (x + rest) == p + x + rest
  {
  }

  /** The framing is injective: no two lists of equally many values give the same message. */
  lemma {:induction false} MessageIsInjective(a: seq<seq<Byte>>, b: seq<seq<Byte>>)
    requires |a| == |b| && Message(a) == Message(b)
    requires forall i :: 0 <= i < |a| ==> Framable(a[i]) && Framable(b[i])
    ensures a == b
    decreases |a|
  {
    if a != [] {
      var p, q := BigEndian(|a[0]|, LENGTH_BYTES), BigEndian(|b[0]|, LENGTH_BYTES);
      if p == q {
        BigEndianIsInjective(|a[0]|, |b[0]|, LENGTH_BYTES);
      }
      SameFrame(p, q, a[0], b[0], Message(a[1..]), Message(b[1..]));
      MessageIsInjective(a[1..], b[1..]);
      assert a == [a[0]] + a[1..] && b == [b[0]] + b[1..];
    }
  }

  lemma SamePrefix(p: seq<Byte>, q: seq<Byte>, a: seq<Byte>, b: seq<Byte>)
    requires |p| == |q| && p + a == q + b
    ensures p == q && a == b
  {
    assert p == (p + a)[..|p|] && q == (q + b)[..|q|];
    assert a == (p + a)[|p|..] && b == (q + b)[|q|..];
  }
}
