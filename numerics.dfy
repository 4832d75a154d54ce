/**
  The C# integer types and operators the core relies on.  Dafny's `int` is
  unbounded and its `/` is Euclidean, so the fixed widths, the unchecked
  wrap-around of 32-bit `int` arithmetic and C#'s truncating division are
  written out here.
 */
module Numerics {

  const TWO_TO_THE_16: int := 0x1_0000
  const TWO_TO_THE_31: int := 0x8000_0000
  const TWO_TO_THE_32: int := 0x1_0000_0000

  /** C# `ushort` (System.UInt16). */
  type uint16 = x: int | 0 <= x < 0x1_0000

  /** C# `int` (System.Int32). */
  type int32 = x: int | -0x8000_0000 <= x < 0x8000_0000

  predicate InInt32Range(x: int) {
    -TWO_TO_THE_31 <= x < TWO_TO_THE_31
  }

  function Abs(x: int): (r: nat)
    ensures r == x || r == -x
  {
    if x < 0 then -x else x
  }

  /**
    Unchecked 32-bit two's-complement wrap-around: the int32 that is
    congruent to `x` modulo 2^32.
   */
  function Wrap32(x: int): (r: int32)
    ensures (x - r) % TWO_TO_THE_32 == 0
    ensures InInt32Range(x) ==> r == x
  {
    (x + TWO_TO_THE_31) % TWO_TO_THE_32 - TWO_TO_THE_31
  }

  /**
    C# integer division, which truncates toward zero (Dafny's `/` is
    Euclidean and rounds negative dividends down instead).  The remainder
    `a - r * b` is smaller than the divisor in magnitude and never has the
    opposite sign of the dividend.
   */
  function TruncDiv(a: int, b: int): (r: int)
    requires b != 0
    ensures Abs(a - r * b) < Abs(b)
    ensures a - r * b == 0 || ((a - r * b < 0) == (a < 0))
  {
    var q := Abs(a) / Abs(b);
    var m := Abs(a) % Abs(b);
    assert Abs(a) == q * Abs(b) + m && 0 <= m < Abs(b);
    var r := if (a < 0) == (b < 0) then q else -q;
    assert r * b == (if a < 0 then -(q * Abs(b)) else q * Abs(b)) by {
      SignedProduct(q, b, (a < 0) == (b < 0));
    }
    assert a - r * b == (if a < 0 then -m else m);
    r
  }

  lemma SignedProduct(q: int, b: int, same: bool)
    ensures (if same then q else -q) * b
         == (if same == (b < 0) then -(q * Abs(b)) else q * Abs(b))
  {
  }

  /** Truncation and Euclidean division agree on non-negative dividends ... */
  lemma TruncDivOfNonNegative(a: nat, b: int)
    requires b > 0
    ensures TruncDiv(a, b) == a / b
  {
  }

  /** ... and differ on a negative dividend that the divisor does not divide. */
  lemma TruncDivDiffersFromEuclidean()
    ensures TruncDiv(-98, 4) == -24
    ensures -98 / 4 == -25
  {
  }

  /** The quotient is determined by the two ensures of TruncDiv. */
  lemma {:induction false} TruncDivUnique(a: int, b: int, q: int)
    requires b != 0
    requires Abs(a - q * b) < Abs(b)
    requires a - q * b == 0 || ((a - q * b < 0) == (a < 0))
    ensures q == TruncDiv(a, b)
  {
    var r := TruncDiv(a, b);
    var mr, mq := a - r * b, a - q * b;
    assert (q - r) * b == mr - mq by {
      SubMul(q, r, b);
    }
    assert Abs(mr - mq) < Abs(b);
    if q != r {
      MulAbsAtLeast(q - r, b);
    }
  }

  lemma SubMul(q: int, r: int, b: int)
    ensures (q - r) * b == q * b - r * b
  {
  }

  lemma MulAbsAtLeast(k: int, b: int)
    requires k != 0
    ensures Abs(k * b) >= Abs(b)
  {
    if k > 0 {
      if b >= 0 { assert k * b >= b; } else { assert k * b <= b; }
    } else {
      if b >= 0 { assert k * b <= -b; } else { assert k * b >= -b; }
    }
  }
}
