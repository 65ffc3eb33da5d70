/**
 * Bit strings as the simulator reads them: a block's bits form a big-endian
 * number (bit 0 is the most significant), and GF(2) addition is XOR.
 * These are the mathematical definitions every later stage refers to.
 */
module Bits {

  function Pow2(n: nat): (p: nat)
    ensures p >= 1
  {
    if n == 0 then 1 else 2 * Pow2(n - 1)
  }

  function B2N(b: bool): nat
  {
    if b then 1 else 0
  }

  /** Big-endian value of a bit string: bit i weighs 2^(|s|-1-i). */
  function ToNat(s: seq<bool>): nat
  {
    if |s| == 0 then 0 else 2 * ToNat(s[..|s| - 1]) + B2N(s[|s| - 1])
  }

  /** The n low-order bits of v, most significant first. */
  function FromNat(n: nat, v: nat): (s: seq<bool>)
    ensures |s| == n
  {
    if n == 0 then [] else FromNat(n - 1, v / 2) + [v % 2 == 1]
  }

  function Zeros(n: nat): (s: seq<bool>)
    ensures |s| == n
    ensures forall i :: 0 <= i < n ==> !s[i]
  {
    seq(n, _ => false)
  }

  /** Element-wise XOR, i.e. addition of GF(2) polynomials. */
  function Xor(a: seq<bool>, b: seq<bool>): (r: seq<bool>)
    requires |a| == |b|
    ensures |r| == |a|
    ensures forall i :: 0 <= i < |a| ==> r[i] == (a[i] != b[i])
  {
    seq(|a|, i requires 0 <= i < |a| => a[i] != b[i])
  }

  /** Number of one bits of a bit string (its Hamming weight). */
  function Weight(s: seq<bool>): nat
  {
    if |s| == 0 then 0 else Weight(s[..|s| - 1]) + B2N(s[|s| - 1])
  }

  /** h is v >> 1: v is 2h or 2h + 1. */
  predicate IsHalf(v: nat, h: nat)
  {
    h + h <= v <= h + h + 1
  }

  /**
   * v >> 1.  It is defined without division, so that the proofs about the
   * bit-level helpers stay in linear arithmetic.
   */
  function Half(v: nat): (h: nat)
    ensures h + h <= v <= h + h + 1
  {
    HalfExists(v);
    var h: nat :| IsHalf(v, h); h
  }

  lemma {:induction false} HalfExists(v: nat)
    ensures exists h: nat :: IsHalf(v, h)
  {
    if v >= 2 {
      HalfExists(v - 2);
      var h: nat :| IsHalf(v - 2, h);
      assert IsHalf(v, h + 1);
    } else {
      assert IsHalf(v, 0);
    }
  }

  /** v & 1: the lowest bit, what is left after taking Half(v) twice. */
  function Low(v: nat): (b: nat)
    ensures b < 2 && v == Half(v) + Half(v) + b
  {
    v - Half(v) - Half(v)
  }

  /** Number of one bits in the binary expansion of v. */
  function BitCount(v: nat): nat
  {
    if v == 0 then 0 else Low(v) + BitCount(Half(v))
  }

  predicate AllZero(s: seq<bool>)
  {
    forall i :: 0 <= i < |s| ==> !s[i]
  }

  // ---------------------------------------------------------------------
  // Big-endian conversion

  lemma {:induction false} ToNatBound(s: seq<bool>)
    ensures ToNat(s) < Pow2(|s|)
  {
    if |s| > 0 {
      ToNatBound(s[..|s| - 1]);
    }
  }

  lemma ModHalf(v: nat, p: nat)
    requires p >= 1
    ensures v % (2 * p) == 2 * ((v / 2) % p) + v % 2
    ensures v / (2 * p) == (v / 2) / p
  {
    var q := (v / 2) / p;
    var r := (v / 2) % p;
    assert v / 2 == q * p + r;
    assert v == 2 * (v / 2) + v % 2;
    assert v == (2 * p) * q + (2 * r + v % 2);
    assert 0 <= 2 * r + v % 2 < 2 * p;
    DivModUnique(v, 2 * p, q, 2 * r + v % 2);
  }

  /** A number assembled from a half and a bit splits back into them. */
  lemma HalfOf(q: nat, r: nat)
    requires r < 2
    ensures Half(q + q + r) == q && Low(q + q + r) == r
  {
    var v := q + q + r;
    assert v == Half(v) + Half(v) + Low(v);
  }

  /** Half and Low are the quotient and remainder of division by 2. */
  lemma HalfIsDiv(v: nat)
    ensures Half(v) == v / 2 && Low(v) == v % 2
  {
    DivModUnique(v, 2, Half(v), Low(v));
  }

  lemma DivModUnique(v: int, d: int, q: int, r: int)
    requires d > 0 && 0 <= r < d && v == d * q + r
    ensures v / d == q && v % d == r
  {
    var q0, r0 := v / d, v % d;
    if q0 > q {
      assert d * q0 - d * q == d * (q0 - q);
      MulAtLeast(d, q0 - q);
    } else if q0 < q {
      assert d * q - d * q0 == d * (q - q0);
      MulAtLeast(d, q - q0);
    }
  }

  /** Taking d away from v lowers the quotient by one and keeps the remainder. */
  lemma DivModStep(v: int, d: int)
    requires d > 0
    ensures (v + d) / d == v / d + 1 && (v + d) % d == v % d
  {
    var q, r := v / d, v % d;
    assert v == d * q + r;
    assert v + d == d * (q + 1) + r;
    DivModUnique(v + d, d, q + 1, r);
  }

  lemma MulAtLeast(d: int, k: int)
    requires d > 0 && k >= 1
    ensures d * k >= d
  {
  }

  /** Converting a number to n bits and back keeps exactly its residue mod 2^n. */
  lemma {:induction false} ToNatFromNat(n: nat, v: nat)
    ensures ToNat(FromNat(n, v)) == v % Pow2(n)
  {
    if n > 0 {
      var s := FromNat(n, v);
      assert s[..n - 1] == FromNat(n - 1, v / 2);
      ToNatFromNat(n - 1, v / 2);
      ModHalf(v, Pow2(n - 1));
    }
  }

  /** Converting a bit string to a number and back reproduces it. */
  lemma {:induction false} FromNatToNat(s: seq<bool>)
    ensures FromNat(|s|, ToNat(s)) == s
  {
    if |s| > 0 {
      var p := s[..|s| - 1];
      var v := ToNat(s);
      DivModUnique(v, 2, ToNat(p), B2N(s[|s| - 1]));
      FromNatToNat(p);
      assert s == p + [s[|s| - 1]];
    }
  }

  /** Bit n-1-i of the n-bit encoding of v is bit i of v: (v >> i) & 1. */
  lemma {:induction false} FromNatBit(n: nat, v: nat, i: nat)
    requires i < n
    ensures FromNat(n, v)[n - 1 - i] == ((v / Pow2(i)) % 2 == 1)
  {
    if i > 0 {
      assert FromNat(n, v)[n - 1 - i] == FromNat(n - 1, v / 2)[(n - 1) - 1 - (i - 1)];
      FromNatBit(n - 1, v / 2, i - 1);
      ModHalf(v, Pow2(i - 1));
    }
  }

  lemma FromNatSmall(n: nat, v: nat)
    requires v < Pow2(n)
    ensures ToNat(FromNat(n, v)) == v
  {
    ToNatFromNat(n, v);
  }

  /** Two bit strings of equal length are equal iff their values are. */
  lemma ToNatInjective(a: seq<bool>, b: seq<bool>)
    requires |a| == |b| && ToNat(a) == ToNat(b)
    ensures a == b
  {
    FromNatToNat(a);
    FromNatToNat(b);
  }

  /** A bit string has value zero iff all its bits are clear. */
  lemma {:induction false} ToNatZero(s: seq<bool>)
    ensures ToNat(s) == 0 <==> AllZero(s)
  {
    if |s| > 0 {
      var p := s[..|s| - 1];
      ToNatZero(p);
      assert AllZero(s) <==> AllZero(p) && !s[|s| - 1] by {
        if AllZero(p) && !s[|s| - 1] {
          forall i | 0 <= i < |s|
            ensures !s[i]
          {
            if i < |s| - 1 {
              assert s[i] == p[i];
            }
          }
        }
      }
    }
  }

  // ---------------------------------------------------------------------
  // Weight and XOR

  /** The weight of the n-bit encoding of v is its number of one bits. */
  lemma {:induction false} WeightFromNat(n: nat, v: nat)
    requires v < Pow2(n)
    ensures Weight(FromNat(n, v)) == BitCount(v)
  {
    if n > 0 {
      var s := FromNat(n, v);
      assert s[..n - 1] == FromNat(n - 1, v / 2);
      WeightFromNat(n - 1, v / 2);
      HalfIsDiv(v);
    }
  }
}
