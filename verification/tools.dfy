/**
 * The helpers of pegasus_tools.c: Gray coding of constellation indices,
 * population count, and the bit and symbol error rates that the simulator
 * reports (pegasus_tools.c:90-161).
 */
module Tools {
  import opened Bits
  import opened Block
  import opened Wrappers

  // ---------------------------------------------------------------------
  // Bitwise XOR of naturals

  /** XOR of two single bits. */
  function XorBit(x: nat, y: nat): nat
  {
    if x == y then 0 else 1
  }

  /** Bitwise exclusive or of two naturals, least significant bit first. */
  function NatXor(a: nat, b: nat): nat
    decreases a + b
  {
    if a == 0 && b == 0 then 0
    else
      var high := NatXor(Half(a), Half(b));
      high + high + XorBit(Low(a), Low(b))
  }

  /** NatXor splits into the XOR of the high parts and the XOR of the low bits. */
  lemma NatXorStep(a: nat, x: nat, c: nat, y: nat)
    requires x < 2 && y < 2
    ensures NatXor(a + a + x, c + c + y) == NatXor(a, c) + NatXor(a, c) + XorBit(x, y)
  {
    HalfOf(a, x);
    HalfOf(c, y);
  }

  lemma {:induction false} NatXorSelf(a: nat)
    ensures NatXor(a, a) == 0
  {
    if a != 0 {
      NatXorSelf(Half(a));
    }
  }

  /** Splitting off the lowest bit of a bit count. */
  lemma BitCountStep(a: nat, x: nat)
    requires x < 2
    ensures BitCount(a + a + x) == BitCount(a) + x
  {
    HalfOf(a, x);
  }

  /** Adding one flips the lowest bit. */
  lemma LowSucc(m: nat)
    ensures Low(m + 1) == XorBit(Low(m), 1)
  {
    var h := Half(m);
    if Low(m) == 0 {
      HalfOf(h, 1);
    } else {
      HalfOf(h + 1, 0);
    }
  }

  // ---------------------------------------------------------------------
  // Gray code (pgt_value_to_gray)

  /**
   * pgt_value_to_gray: the code is the value XOR-ed with itself shifted
   * right by one.  It is built here from the top bit down: each bit of the
   * code is the XOR of that bit of the value and the bit above it.
   */
  function Gray(v: nat): (g: nat)
    ensures g == NatXor(Half(v), v)
  {
    if v == 0 then 0
    else
      var m, b := Half(v), Low(v);
      assert v == m + m + b;
      NatXorStep(Half(m), Low(m), m, b);
      var high := Gray(m);
      high + high + XorBit(Low(m), b)
  }

  /** Gray(2m+b) appends to Gray(m) the XOR of b with the lowest bit of m. */
  lemma GrayStep(m: nat, b: nat)
    requires b < 2
    ensures Gray(m + m + b) == Gray(m) + Gray(m) + XorBit(Low(m), b)
  {
    HalfOf(m, b);
  }

  /** Two numbers that differ in the lowest bit only have XOR 1. */
  lemma XorLowestBit(g: nat, x: nat)
    requires x < 2
    ensures NatXor(g + g + x, g + g + XorBit(x, 1)) == 1
  {
    NatXorStep(g, x, g, XorBit(x, 1));
    NatXorSelf(g);
  }

  /** The codes of 2m and 2m+1 differ in the lowest bit only. */
  lemma GrayEvenPair(m: nat)
    ensures NatXor(Gray(m + m), Gray(m + m + 1)) == 1
  {
    var x, g := Low(m), Gray(m);
    GrayStep(m, 0);
    GrayStep(m, 1);
    XorLowestBit(g, x);
  }

  /** Two numbers with the same lowest bit have as XOR twice the XOR of the rest. */
  lemma XorSameLowestBit(g: nat, h: nat, y: nat)
    requires y < 2
    ensures NatXor(g + g + y, h + h + y) == NatXor(g, h) + NatXor(g, h)
  {
    NatXorStep(g, y, h, y);
  }

  /** The codes of 2m+1 and 2m+2 agree in the lowest bit and differ as those of m and m+1. */
  lemma GrayOddPair(m: nat)
    ensures NatXor(Gray(m + m + 1), Gray(m + m + 2)) == NatXor(Gray(m), Gray(m + 1)) + NatXor(Gray(m), Gray(m + 1))
  {
    GrayStep(m, 1);
    GraySuccStep(m);
    XorSameLowestBit(Gray(m), Gray(m + 1), XorBit(Low(m), 1));
  }

  /** GrayStep for the even successor 2m + 2, whose half is m + 1. */
  lemma {:induction false} GraySuccStep(m: nat)
    ensures Gray(m + m + 2) == Gray(m + 1) + Gray(m + 1) + XorBit(Low(m), 1)
  {
    var k := m + 1;
    GrayStep(k, 0);
    LowSucc(m);
    var b := Low(k);
    assert XorBit(b, 0) == b;
    assert k + k + 0 == m + m + 2;
  }

  /** An even value and its successor have codes one bit apart. */
  lemma GrayAdjacentEven(v: nat, m: nat)
    requires v == m + m
    ensures BitCount(NatXor(Gray(v), Gray(v + 1))) == 1
  {
    GrayEvenPair(m);
    BitCountStep(0, 1);
  }

  /** An odd value and its successor have codes one bit apart if half of it and its successor do. */
  lemma GrayAdjacentOdd(v: nat, m: nat)
    requires v == m + m + 1
    requires BitCount(NatXor(Gray(m), Gray(m + 1))) == 1
    ensures BitCount(NatXor(Gray(v), Gray(v + 1))) == 1
  {
    var d := NatXor(Gray(m), Gray(m + 1));
    GrayOddPair(m);
    BitCountStep(d, 0);
  }

  /**
   * The defining property of the Gray code: the codes of consecutive
   * values differ in exactly one bit.
   */
  lemma {:induction false} GrayAdjacent(v: nat)
    ensures BitCount(NatXor(Gray(v), Gray(v + 1))) == 1
  {
    var m := Half(v);
    if Low(v) == 0 {
      GrayAdjacentEven(v, m);
    } else {
      GrayAdjacent(m);
      GrayAdjacentOdd(v, m);
    }
  }

  /** The inverse of the Gray code: each bit is the XOR of all bits above it. */
  function FromGray(g: nat): nat
  {
    if g == 0 then 0
    else
      var high := FromGray(Half(g));
      high + high + XorBit(Low(g), Low(high))
  }

  lemma {:induction false} GrayZero(v: nat)
    ensures Gray(v) == 0 <==> v == 0
  {
    if v != 0 {
      var m, b := Half(v), Low(v);
      GrayStep(m, b);
      GrayZero(m);
    }
  }

  /** Decoding a Gray code gives the value back. */
  lemma {:induction false} FromGrayGray(v: nat)
    ensures FromGray(Gray(v)) == v
  {
    if v != 0 {
      var m, b := Half(v), Low(v);
      var x := XorBit(Low(m), b);
      GrayStep(m, b);
      GrayZero(v);
      HalfOf(Gray(m), x);
      FromGrayGray(m);
      assert FromGray(Gray(v)) == m + m + XorBit(x, Low(m));
    }
  }

  /** Every natural is the Gray code of FromGray of it. */
  lemma {:induction false} GrayFromGray(g: nat)
    ensures Gray(FromGray(g)) == g
  {
    if g != 0 {
      var q, r := Half(g), Low(g);
      var h := FromGray(q);
      var b := XorBit(r, Low(h));
      assert FromGray(g) == h + h + b;
      GrayFromGray(q);
      GrayStep(h, b);
    }
  }

  /** Distinct values have distinct Gray codes, so the constellation fill never collides. */
  lemma GrayInjective(v: nat, w: nat)
    requires Gray(v) == Gray(w)
    ensures v == w
  {
    FromGrayGray(v);
    FromGrayGray(w);
  }

  /** An n-bit value has an n-bit Gray code. */
  lemma {:induction false} GrayBound(n: nat, v: nat)
    requires v < Pow2(n)
    ensures Gray(v) < Pow2(n)
  {
    if n > 0 {
      var m, b := Half(v), Low(v);
      GrayStep(m, b);
      GrayBound(n - 1, m);
    } else {
      GrayZero(v);
    }
  }

  /** Gray coding permutes the n-bit values: every code below 2^n is hit by a value below 2^n. */
  lemma GrayOnto(n: nat, g: nat)
    requires g < Pow2(n)
    ensures FromGray(g) < Pow2(n) && Gray(FromGray(g)) == g
  {
    GrayFromGray(g);
    FromGrayBound(n, g);
  }

  lemma {:induction false} FromGrayBound(n: nat, g: nat)
    requires g < Pow2(n)
    ensures FromGray(g) < Pow2(n)
  {
    if n > 0 && g != 0 {
      FromGrayBound(n - 1, Half(g));
    }
  }

  // ---------------------------------------------------------------------
  // Population count (pgt_popcount)

  /**
   * pgt_popcount as compiled by GCC: __builtin_popcount takes an unsigned
   * int, so the 64-bit argument is first truncated to its low 32 bits.
   */
  function PopcountAsWritten(v: nat): (r: nat)
    ensures v < Pow2(32) ==> r == BitCount(v)
  {
    var low := v % Pow2(32);
    assert v < Pow2(32) ==> low == v by {
      if v < Pow2(32) {
        ModSmall(v, Pow2(32));
      }
    }
    BitCount(low)
  }

  /** v >> i */
  function ShiftRight(v: nat, i: nat): nat
  {
    if i == 0 then v else Half(ShiftRight(v, i - 1))
  }

  /** The bit count is the lowest bit plus the bit count of the rest. */
  lemma BitCountSplit(v: nat)
    ensures BitCount(v) == Low(v) + BitCount(Half(v))
  {
    if v == 0 {
      assert Half(v) == 0;
    }
  }

  /** A value of k + 1 bits shifted right by one has k bits. */
  lemma HalfBelow(v: nat, k: nat)
    requires v < Pow2(k + 1)
    ensures Half(v) < Pow2(k)
  {
  }

  /**
   * pgt_popcount's portable branch: test bit 0 of the value shifted right
   * by each of 0..63.  The argument is an unsigned long long; the result
   * is its number of one bits.
   */
  method Popcount(v: nat) returns (ret: nat)
    requires v < Pow2(UllBits)
    ensures ret == BitCount(v)
  {
    ret := 0;
    var i := 0;
    while i < UllBits
      invariant 0 <= i <= UllBits
      invariant ShiftRight(v, i) < Pow2(UllBits - i)
      invariant ret + BitCount(ShiftRight(v, i)) == BitCount(v)
    {
      var shifted := ShiftRight(v, i);
      HalfBelow(shifted, UllBits - i - 1);
      BitCountSplit(shifted);
      if Low(shifted) == 1 {
        ret := ret + 1;
      }
      i := i + 1;
    }
  }

  lemma ModSmall(v: nat, p: nat)
    requires v < p
    ensures v % p == v
  {
    DivModUnique(v, p, 0, v);
  }

  /** At 2^32, a valid argument with one bit set, the GCC branch reports no set bit. */
  lemma PopcountTruncates()
    ensures Pow2(32) < Pow2(UllBits)
    ensures PopcountAsWritten(Pow2(32)) == 0
    ensures BitCount(Pow2(32)) == 1
  {
    DivModUnique(Pow2(32), Pow2(32), 1, 0);
    Pow2Monotone(33, UllBits);
    BitCountPow2(32);
  }

  lemma {:induction false} BitCountPow2(n: nat)
    ensures BitCount(Pow2(n)) == 1
  {
    if n > 0 {
      BitCountPow2(n - 1);
      BitCountStep(Pow2(n - 1), 0);
    }
  }

  // ---------------------------------------------------------------------
  // Error rates (pgt_get_ber, pgt_get_ser)

  /**
   * The quotient of two counts, as the C code forms it in double precision:
   * 0/0 is NaN, and otherwise the exact rational value (IEEE rounding is
   * not modelled).
   */
  datatype Ratio = Num(value: real) | NaN

  function Quotient(a: nat, b: nat): (r: Ratio)
    requires a <= b
    ensures r.NaN? <==> b == 0
    ensures r.Num? ==> 0.0 <= r.value <= 1.0 && (r.value == 0.0 <==> a == 0)
  {
    if b == 0 then NaN else Num(a as real / b as real)
  }

  /** Number of the first n positions where two blocks disagree. */
  function WrongBits(o: Block, d: Block, n: nat): (w: nat)
    requires n <= |o.bits| && n <= |d.bits|
    ensures w <= n
  {
    if n == 0 then 0
    else WrongBits(o, d, n - 1) + (if CmpBit(o, n - 1, d, n - 1) then 0 else 1)
  }

  /** The mismatch count is the Hamming weight of the XOR of the two prefixes. */
  lemma {:induction false} WrongBitsIsWeight(o: Block, d: Block, n: nat)
    requires n <= |o.bits| && n <= |d.bits|
    ensures WrongBits(o, d, n) == Weight(Bits.Xor(o.bits[..n], d.bits[..n]))
  {
    if n > 0 {
      WrongBitsIsWeight(o, d, n - 1);
      var x := Bits.Xor(o.bits[..n], d.bits[..n]);
      assert x[..n - 1] == Bits.Xor(o.bits[..n - 1], d.bits[..n - 1]);
    }
  }

  /** No mismatch exactly when the prefixes agree. */
  lemma {:induction false} WrongBitsZero(o: Block, d: Block, n: nat)
    requires n <= |o.bits| && n <= |d.bits|
    ensures WrongBits(o, d, n) == 0 <==> o.bits[..n] == d.bits[..n]
  {
    if n > 0 {
      WrongBitsZero(o, d, n - 1);
      assert o.bits[..n] == o.bits[..n - 1] + [o.bits[n - 1]];
      assert d.bits[..n] == d.bits[..n - 1] + [d.bits[n - 1]];
    }
  }

  /** Inverting every bit makes every position wrong. */
  lemma {:induction false} WrongBitsInverted(o: Block, d: Block, n: nat)
    requires n <= |o.bits| && n <= |d.bits|
    requires forall i :: 0 <= i < n ==> d.bits[i] != o.bits[i]
    ensures WrongBits(o, d, n) == n
  {
    if n > 0 {
      WrongBitsInverted(o, d, n - 1);
    }
  }

  /**
   * pgt_get_ber: the fraction of the first `length` bits of block 0 that
   * differ; 0 when either array is NULL.
   */
  function Ber(original: Option<seq<Block>>, distorted: Option<seq<Block>>, length: nat): (r: Ratio)
    requires original.Some? && distorted.Some? && length > 0 ==>
      |original.value| >= 1 && |distorted.value| >= 1
      && length <= |original.value[0].bits| && length <= |distorted.value[0].bits|
    ensures original.None? || distorted.None? ==> r == Num(0.0)
    ensures original.Some? && distorted.Some? ==> (r.NaN? <==> length == 0)
    ensures r.Num? ==> 0.0 <= r.value <= 1.0
    ensures original.Some? && distorted.Some? && length > 0 ==>
      (r == Num(0.0) <==> original.value[0].bits[..length] == distorted.value[0].bits[..length])
    ensures original.Some? && distorted.Some? && length > 0 ==>
      r == Num(Weight(Bits.Xor(original.value[0].bits[..length], distorted.value[0].bits[..length])) as real
               / length as real)
  {
    if original.None? || distorted.None? then Num(0.0)
    else if length == 0 then Quotient(0, 0)
    else
      var o, d := original.value[0], distorted.value[0];
      WrongBitsZero(o, d, length);
      WrongBitsIsWeight(o, d, length);
      Quotient(WrongBits(o, d, length), length)
  }

  /** Whether pgt_get_ser counts block pair (o, d) as a symbol error. */
  predicate BlockWrong(o: Block, d: Block)
    requires |o.bits| <= |d.bits|
  {
    WrongBits(o, d, |o.bits|) > 0
  }

  lemma BlockWrongMeans(o: Block, d: Block)
    requires |o.bits| <= |d.bits|
    ensures BlockWrong(o, d) <==> o.bits != d.bits[..|o.bits|]
  {
    WrongBitsZero(o, d, |o.bits|);
    assert o.bits[..|o.bits|] == o.bits;
  }

  /** Number of the first n block pairs with at least one differing bit. */
  function WrongBlocks(o: seq<Block>, d: seq<Block>, n: nat): (w: nat)
    requires n <= |o| && n <= |d|
    requires forall i :: 0 <= i < n ==> |o[i].bits| <= |d[i].bits|
    ensures w <= n
  {
    if n == 0 then 0
    else WrongBlocks(o, d, n - 1) + (if BlockWrong(o[n - 1], d[n - 1]) then 1 else 0)
  }

  /** The indices of the first n block pairs whose original differs from the distorted block. */
  ghost function WrongSet(o: seq<Block>, d: seq<Block>, n: nat): set<nat>
    requires n <= |o| && n <= |d|
    requires forall i :: 0 <= i < n ==> |o[i].bits| <= |d[i].bits|
  {
    set i: nat | i < n && o[i].bits != d[i].bits[..|o[i].bits|]
  }

  /** The wrong-block count is the number of differing pairs among the first n. */
  lemma {:induction false} WrongBlocksCounts(o: seq<Block>, d: seq<Block>, n: nat)
    requires n <= |o| && n <= |d|
    requires forall i :: 0 <= i < n ==> |o[i].bits| <= |d[i].bits|
    ensures WrongBlocks(o, d, n) == |WrongSet(o, d, n)|
  {
    if n > 0 {
      WrongBlocksCounts(o, d, n - 1);
      BlockWrongMeans(o[n - 1], d[n - 1]);
      var before := WrongSet(o, d, n - 1);
      assert n - 1 !in before;
      if BlockWrong(o[n - 1], d[n - 1]) {
        assert WrongSet(o, d, n) == before + {n - 1};
      } else {
        assert WrongSet(o, d, n) == before;
      }
    }
  }

  lemma {:induction false} WrongBlocksZero(o: seq<Block>, d: seq<Block>, n: nat)
    requires n <= |o| && n <= |d|
    requires forall i :: 0 <= i < n ==> |o[i].bits| <= |d[i].bits|
    ensures WrongBlocks(o, d, n) == 0 <==> forall i :: 0 <= i < n ==> o[i].bits == d[i].bits[..|o[i].bits|]
  {
    if n > 0 {
      WrongBlocksZero(o, d, n - 1);
      BlockWrongMeans(o[n - 1], d[n - 1]);
    }
  }

  /**
   * pgt_get_ser: the fraction of the first `count` blocks that differ from
   * their distorted counterpart in at least one bit; 0 when either array is
   * NULL.
   */
  function Ser(original: Option<seq<Block>>, distorted: Option<seq<Block>>, count: nat): (r: Ratio)
    requires original.Some? && distorted.Some? ==>
      count <= |original.value| && count <= |distorted.value|
      && forall i :: 0 <= i < count ==> |original.value[i].bits| <= |distorted.value[i].bits|
    ensures original.None? || distorted.None? ==> r == Num(0.0)
    ensures original.Some? && distorted.Some? ==> (r.NaN? <==> count == 0)
    ensures r.Num? ==> 0.0 <= r.value <= 1.0
    ensures original.Some? && distorted.Some? && count > 0 ==>
      (r == Num(0.0) <==> forall i :: 0 <= i < count ==>
         original.value[i].bits == distorted.value[i].bits[..|original.value[i].bits|])
    ensures original.Some? && distorted.Some? && count > 0 ==>
      r == Num(|WrongSet(original.value, distorted.value, count)| as real / count as real)
  {
    if original.None? || distorted.None? then Num(0.0)
    else
      var o, d := original.value, distorted.value;
      WrongBlocksZero(o, d, count);
      WrongBlocksCounts(o, d, count);
      Quotient(WrongBlocks(o, d, count), count)
  }
}
