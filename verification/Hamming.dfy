/** `_hamming`: the number of bits in which two decoded hashes differ. */
module Hamming {

  /** The bitwise exclusive or of two naturals, from the lowest bit up. */
  function Xor(a: nat, b: nat): nat {
    if a == 0 && b == 0 then 0
    else (if a % 2 != b % 2 then 1 else 0) + 2 * Xor(a / 2, b / 2)
  }

  function BitCount(n: nat): nat {
    if n == 0 then 0 else n % 2 + BitCount(n / 2)
  }

  function Distance(a: nat, b: nat): nat {
    BitCount(Xor(a, b))
  }

  /** One bit at a time. */
  lemma DistanceStep(a: nat, b: nat)
    ensures Distance(a, b) == (if a % 2 != b % 2 then 1 else 0) + Distance(a / 2, b / 2)
  {
    var rest := Xor(a / 2, b / 2);
    var low := if a % 2 != b % 2 then 1 else 0;
    if a != 0 || b != 0 {
      assert Xor(a, b) == low + 2 * rest;
      assert (low + 2 * rest) % 2 == low && (low + 2 * rest) / 2 == rest;
    }
  }

  lemma {:induction false} DistanceIsZeroIffEqual(a: nat, b: nat)
    ensures Distance(a, b) == 0 <==> a == b
    decreases a + b
  {
    DistanceStep(a, b);
    if a != 0 || b != 0 {
      DistanceIsZeroIffEqual(a / 2, b / 2);
    }
  }

  lemma {:induction false} DistanceIsSymmetric(a: nat, b: nat)
    ensures Distance(a, b) == Distance(b, a)
    decreases a + b
  {
    DistanceStep(a, b);
    DistanceStep(b, a);
    if a != 0 || b != 0 {
      DistanceIsSymmetric(a / 2, b / 2);
    }
  }

  /** The triangle inequality. */
  lemma {:induction false} DistanceTriangle(a: nat, b: nat, c: nat)
    ensures Distance(a, c) <= Distance(a, b) + Distance(b, c)
    decreases a + b + c
  {
    DistanceStep(a, b);
    DistanceStep(b, c);
    DistanceStep(a, c);
    if a != 0 || b != 0 || c != 0 {
      DistanceTriangle(a / 2, b / 2, c / 2);
    }
  }

  // ----- Bit by bit -----

  function Bit(n: nat, i: nat): nat {
    if i == 0 then n % 2 else Bit(n / 2, i - 1)
  }

  /** The positions below `width` in which two hashes differ. */
  ghost function Differing(a: nat, b: nat, width: nat): set<nat> {
    set i: nat | i < width && Bit(a, i) != Bit(b, i)
  }

  function Width(n: nat): nat {
    if n == 0 then 0 else 1 + Width(n / 2)
  }

  /** The distance is the number of differing bits. */
  lemma {:induction false} DistanceCountsBits(a: nat, b: nat, width: nat)
    requires Width(a) <= width && Width(b) <= width
    ensures Distance(a, b) == |Differing(a, b, width)|
    decreases width
  {
    DistanceStep(a, b);
    if width == 0 {
      assert Differing(a, b, 0) == {};
    } else {
      DistanceCountsBits(a / 2, b / 2, width - 1);
      DifferingStep(a, b, width);
    }
  }

  lemma DifferingStep(a: nat, b: nat, width: nat)
    requires width > 0
    ensures |Differing(a, b, width)| ==
      |Differing(a / 2, b / 2, width - 1)| + if a % 2 != b % 2 then 1 else 0
  {
    var rest := Differing(a / 2, b / 2, width - 1);
    var shifted := set i | i in rest :: i + 1;
    ShiftedIsAsLarge(rest, shifted);
    forall i: nat ensures i in Differing(a, b, width) <==> i in shifted || (i == 0 && a % 2 != b % 2) {
      if i > 0 {
        assert i - 1 in rest <==> i in shifted;
      }
    }
    if a % 2 != b % 2 {
      assert Differing(a, b, width) == shifted + {0} && 0 !in shifted;
    } else {
      assert Differing(a, b, width) == shifted;
    }
  }

  lemma {:induction false} ShiftedIsAsLarge(s: set<nat>, shifted: set<nat>)
    requires shifted == set i | i in s :: i + 1
    ensures |shifted| == |s|
    decreases s
  {
    if s != {} {
      var x :| x in s;
      var rest := set i | i in s - {x} :: i + 1;
      ShiftedIsAsLarge(s - {x}, rest);
      forall i ensures i in shifted <==> i in rest || i == x + 1 {
        if i in shifted {
          var j :| j in s && i == j + 1;
          assert j != x ==> j in s - {x};
        }
      }
      assert shifted == rest + {x + 1} && x + 1 !in rest;
    }
  }
}
