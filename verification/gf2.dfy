/**
 * Polynomial long division over GF(2), as pgb_divmod2 performs it on a
 * scratch copy of the dividend (pegasus_block.c:170-187).  Bit 0 of a
 * string is the coefficient of the highest power.
 */
module Gf2 {
  import opened Bits

  /** XOR the divisor into t with its first bit at offset i. */
  function AddAt(t: seq<bool>, d: seq<bool>, i: nat): (r: seq<bool>)
    requires i + |d| <= |t|
    ensures |r| == |t|
  {
    seq(|t|, k requires 0 <= k < |t| => if i <= k < i + |d| then t[k] != d[k - i] else t[k])
  }

  /** One iteration of the outer loop: cancel bit i if it is set. */
  function Step(t: seq<bool>, d: seq<bool>, i: nat): (r: seq<bool>)
    requires 1 <= |d| && i + |d| <= |t|
    ensures |r| == |t|
  {
    if t[i] then AddAt(t, d, i) else t
  }

  /** Number of outer-loop iterations: |dividend| - |divisor| + 1. */
  function Span(t: seq<bool>, d: seq<bool>): nat
    requires 1 <= |d| <= |t| + 1
  {
    |t| - |d| + 1
  }

  /** Iterations i, i+1, ..., Span-1 of the outer loop. */
  function Reduce(t: seq<bool>, d: seq<bool>, i: nat): (r: seq<bool>)
    requires 1 <= |d| <= |t| + 1 && i <= Span(t, d)
    ensures |r| == |t|
    decreases Span(t, d) - i
  {
    if i == Span(t, d) then t else Reduce(Step(t, d, i), d, i + 1)
  }

  /** The trailing |d|-1 bits of the fully reduced dividend. */
  function Remainder(t: seq<bool>, d: seq<bool>): (r: seq<bool>)
    requires 1 <= |d| <= |t| + 1
    ensures |r| == |d| - 1
  {
    Reduce(t, d, 0)[Span(t, d)..]
  }

  // ---------------------------------------------------------------------
  // Linearity: every step maps t to t + t[i]*shift(d, i), which is linear.

  lemma StepLinear(a: seq<bool>, b: seq<bool>, d: seq<bool>, i: nat)
    requires |a| == |b| && 1 <= |d| && i + |d| <= |a|
    ensures Step(Xor(a, b), d, i) == Xor(Step(a, d, i), Step(b, d, i))
  {
  }

  lemma {:induction false} ReduceLinear(a: seq<bool>, b: seq<bool>, d: seq<bool>, i: nat)
    requires |a| == |b| && 1 <= |d| <= |a| + 1 && i <= Span(a, d)
    ensures Reduce(Xor(a, b), d, i) == Xor(Reduce(a, d, i), Reduce(b, d, i))
    decreases Span(a, d) - i
  {
    if i < Span(a, d) {
      StepLinear(a, b, d, i);
      ReduceLinear(Step(a, d, i), Step(b, d, i), d, i + 1);
    }
  }

  /** The remainder is GF(2)-linear in the dividend. */
  lemma RemainderLinear(a: seq<bool>, b: seq<bool>, d: seq<bool>)
    requires |a| == |b| && 1 <= |d| <= |a| + 1
    ensures Remainder(Xor(a, b), d) == Xor(Remainder(a, d), Remainder(b, d))
  {
    ReduceLinear(a, b, d, 0);
  }

  // ---------------------------------------------------------------------
  // A dividend whose quotient positions are all clear is its own reduction.

  lemma {:induction false} ReduceZeroPrefix(t: seq<bool>, d: seq<bool>, i: nat)
    requires 1 <= |d| <= |t| + 1 && i <= Span(t, d)
    requires forall k :: 0 <= k < Span(t, d) ==> !t[k]
    ensures Reduce(t, d, i) == t
    decreases Span(t, d) - i
  {
    if i < Span(t, d) {
      ReduceZeroPrefix(t, d, i + 1);
    }
  }

  /** Zeros followed by r, with r shorter than the divisor, leaves remainder r. */
  lemma RemainderOfTail(m: nat, r: seq<bool>, d: seq<bool>)
    requires |d| == |r| + 1
    ensures Remainder(Zeros(m) + r, d) == r
  {
    var t := Zeros(m) + r;
    assert Span(t, d) == m;
    ReduceZeroPrefix(t, d, 0);
  }

  lemma RemainderOfZero(m: nat, d: seq<bool>)
    requires 1 <= |d| <= m + 1
    ensures Remainder(Zeros(m), d) == Zeros(|d| - 1)
  {
    assert Zeros(m) == Zeros(Span(Zeros(m), d)) + Zeros(|d| - 1);
    RemainderOfTail(Span(Zeros(m), d), Zeros(|d| - 1), d);
  }

  // ---------------------------------------------------------------------
  // With a leading one in the divisor the reduction clears every quotient
  // position, so the result really is a remainder.

  lemma {:induction false} ReduceClears(t: seq<bool>, d: seq<bool>, i: nat)
    requires 1 <= |d| <= |t| + 1 && i <= Span(t, d) && d[0]
    requires forall k :: 0 <= k < i ==> !t[k]
    ensures forall k :: 0 <= k < Span(t, d) ==> !Reduce(t, d, i)[k]
    decreases Span(t, d) - i
  {
    if i < Span(t, d) {
      var s := Step(t, d, i);
      assert forall k :: 0 <= k < i + 1 ==> !s[k];
      ReduceClears(s, d, i + 1);
    }
  }

  lemma ReductionClearsQuotient(t: seq<bool>, d: seq<bool>)
    requires 1 <= |d| <= |t| + 1 && d[0]
    ensures forall k :: 0 <= k < Span(t, d) ==> !Reduce(t, d, 0)[k]
  {
    ReduceClears(t, d, 0);
  }

  // ---------------------------------------------------------------------
  // The division identity: dividend = quotient * divisor + remainder.

  /** The bits iterations i, i+1, ..., Span-1 find set: the quotient's coefficients from position i on. */
  function QuotientFrom(t: seq<bool>, d: seq<bool>, i: nat): (q: seq<bool>)
    requires 1 <= |d| <= |t| + 1 && i <= Span(t, d)
    ensures |q| == Span(t, d) - i
    decreases Span(t, d) - i
  {
    if i == Span(t, d) then [] else [t[i]] + QuotientFrom(Step(t, d, i), d, i + 1)
  }

  /** The quotient of t by d, highest coefficient first. */
  function Quotient(t: seq<bool>, d: seq<bool>): (q: seq<bool>)
    requires 1 <= |d| <= |t| + 1
    ensures |q| == Span(t, d)
  {
    QuotientFrom(t, d, 0)
  }

  /** The n-bit product of d with the polynomial whose coefficients q start at position i. */
  function Product(q: seq<bool>, d: seq<bool>, n: nat, i: nat): (r: seq<bool>)
    requires i + |q| + |d| <= n + 1
    ensures |r| == n
    decreases |q|
  {
    if |q| == 0 then Zeros(n)
    else
      var rest := Product(q[1..], d, n, i + 1);
      if q[0] then AddAt(rest, d, i) else rest
  }

  /** The loop only ever adds shifted copies of the divisor: it adds the quotient times the divisor. */
  lemma {:induction false} ReduceIsProduct(t: seq<bool>, d: seq<bool>, i: nat)
    requires 1 <= |d| <= |t| + 1 && i <= Span(t, d)
    ensures Reduce(t, d, i) == Xor(t, Product(QuotientFrom(t, d, i), d, |t|, i))
    decreases Span(t, d) - i
  {
    if i == Span(t, d) {
      assert Xor(t, Zeros(|t|)) == t;
    } else {
      var s := Step(t, d, i);
      ReduceIsProduct(s, d, i + 1);
      var q := QuotientFrom(t, d, i);
      assert q[1..] == QuotientFrom(s, d, i + 1);
      var m := Product(QuotientFrom(s, d, i + 1), d, |t|, i + 1);
      if t[i] {
        assert Product(q, d, |t|, i) == AddAt(m, d, i);
        assert Xor(AddAt(t, d, i), m) == Xor(t, AddAt(m, d, i));
      } else {
        assert Product(q, d, |t|, i) == m;
      }
    }
  }

  /**
   * The division identity: with a leading one in the divisor, the dividend
   * is its quotient times the divisor plus the remainder, which fills the
   * last |d|-1 positions.
   */
  lemma DivisionIdentity(t: seq<bool>, d: seq<bool>)
    requires 1 <= |d| <= |t| + 1 && d[0]
    ensures t == Xor(Product(Quotient(t, d), d, |t|, 0), Zeros(Span(t, d)) + Remainder(t, d))
  {
    ReduceIsProduct(t, d, 0);
    ReductionClearsQuotient(t, d);
    var red := Reduce(t, d, 0);
    var m := Product(Quotient(t, d), d, |t|, 0);
    assert red == Zeros(Span(t, d)) + Remainder(t, d);
    assert Xor(m, red) == t;
  }
}
