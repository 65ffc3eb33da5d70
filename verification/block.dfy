/**
 * The bit block of pegasus_block.c: a fixed-length bit vector plus the
 * transient `used` mark the syndrome tables rely on
 * (pegasus_common_types.h:47-52).  Blocks are values here, so the NULL
 * checks of the C code have nothing to model; unchecked bit accessors take
 * their index range as a precondition and checked copies return a result.
 */
module Block {
  import opened Bits
  import opened Wrappers
  import Gf2

  datatype Block = Block(bits: seq<bool>, used: bool)

  /** Every block of an array made by CreateBlocks has the same size. */
  predicate Uniform(bs: seq<Block>, size: nat)
  {
    forall i :: 0 <= i < |bs| ==> |bs[i].bits| == size
  }

  /** pgb_create_blocks: count blocks of `alignment` clear bits, unmarked. */
  function CreateBlocks(count: nat, alignment: nat): (r: seq<Block>)
    ensures |r| == count && Uniform(r, alignment)
    ensures forall i :: 0 <= i < count ==> AllZero(r[i].bits) && !r[i].used
    ensures forall i :: 0 <= i < count ==> r[i] == Block(Zeros(alignment), false)
  {
    seq(count, _ => Block(Zeros(alignment), false))
  }

  /**
   * pgb_create_block: one block of CreateBlocks.  The first ensures is what
   * the callers rely on (every bit clear, unmarked); the second names the
   * block so that equalities with fresh targets close directly.
   */
  function CreateBlock(alignment: nat): (r: Block)
    ensures |r.bits| == alignment && AllZero(r.bits) && !r.used
    ensures r == Block(Zeros(alignment), false)
  {
    CreateBlocks(1, alignment)[0]
  }

  // ---------------------------------------------------------------------
  // Bit accessors (no bounds checks in the C code)

  /**
   * pgb_get_bit: bit i of an n-bit block is the bit of weight 2^(n-1-i) of
   * the block's big-endian value.
   */
  function GetBit(b: Block, i: nat): (r: bool)
    requires i < |b.bits|
    ensures r <==> (ToNat(b.bits) / Pow2(|b.bits| - 1 - i)) % 2 == 1
  {
    FromNatToNat(b.bits);
    FromNatBit(|b.bits|, ToNat(b.bits), |b.bits| - 1 - i);
    b.bits[i]
  }

  function SetBit(b: Block, i: nat, v: bool): (r: Block)
    requires i < |b.bits|
    ensures |r.bits| == |b.bits| && r.used == b.used
    ensures r.bits[i] == v
    ensures forall j :: 0 <= j < |b.bits| && j != i ==> r.bits[j] == b.bits[j]
  {
    b.(bits := b.bits[i := v])
  }

  /** pgb_xor_bit: bit i ^= v. */
  function XorBit(b: Block, i: nat, v: bool): (r: Block)
    requires i < |b.bits|
    ensures |r.bits| == |b.bits| && r.used == b.used
    ensures r.bits[i] == (b.bits[i] != v)
    ensures forall j :: 0 <= j < |b.bits| && j != i ==> r.bits[j] == b.bits[j]
  {
    SetBit(b, i, b.bits[i] != v)
  }

  /** XOR-ing the same bit in twice restores the block. */
  lemma XorBitTwice(b: Block, i: nat, v: bool)
    requires i < |b.bits|
    ensures XorBit(XorBit(b, i, v), i, v) == b
  {
    assert XorBit(XorBit(b, i, v), i, v).bits == b.bits;
  }

  /** pgb_flip_bit: the one-bit field takes the complement of its value. */
  function FlipBit(b: Block, i: nat): (r: Block)
    requires i < |b.bits|
    ensures |r.bits| == |b.bits| && r.used == b.used
    ensures r.bits[i] != b.bits[i]
    ensures forall j :: 0 <= j < |b.bits| && j != i ==> r.bits[j] == b.bits[j]
  {
    SetBit(b, i, !b.bits[i])
  }

  /** pgb_copyxor_bit: target bit i ^= source bit j. */
  function CopyXorBit(t: Block, i: nat, s: Block, j: nat): (r: Block)
    requires i < |t.bits| && j < |s.bits|
    ensures |r.bits| == |t.bits| && r.used == t.used
    ensures r.bits[i] == (t.bits[i] != s.bits[j])
    ensures forall k :: 0 <= k < |t.bits| && k != i ==> r.bits[k] == t.bits[k]
  {
    SetBit(t, i, t.bits[i] != s.bits[j])
  }

  /** pgb_copyxor_bit is pgb_xor_bit applied with the source's bit. */
  lemma CopyXorIsXorBit(t: Block, i: nat, s: Block, j: nat)
    requires i < |t.bits| && j < |s.bits|
    ensures CopyXorBit(t, i, s, j) == XorBit(t, i, GetBit(s, j))
  {
  }

  /** pgb_copy_bit: target bit i := source bit j. */
  function CopyBit(t: Block, i: nat, s: Block, j: nat): (r: Block)
    requires i < |t.bits| && j < |s.bits|
    ensures |r.bits| == |t.bits| && r.used == t.used
    ensures r.bits[i] == s.bits[j]
    ensures forall k :: 0 <= k < |t.bits| && k != i ==> r.bits[k] == t.bits[k]
  {
    SetBit(t, i, s.bits[j])
  }

  /**
   * pgb_cmp_bit: the two bits are equal exactly when their sum modulo 2,
   * the value pgb_copyxor_bit would leave, is zero.
   */
  function CmpBit(a: Block, i: nat, b: Block, j: nat): (r: bool)
    requires i < |a.bits| && j < |b.bits|
    ensures r <==> (B2N(a.bits[i]) + B2N(b.bits[j])) % 2 == 0
  {
    a.bits[i] == b.bits[j]
  }

  // ---------------------------------------------------------------------
  // Integer conversion.  The C code shifts 1ULL by up to size-1 places, so
  // both directions are defined only for blocks of at most 64 bits.

  const UllBits: nat := 64

  /**
   * pgb_block_to_ull, as its loop runs: bit i adds 2^(size-1-i).  The result
   * is the big-endian value of the block and fits in the block's width.
   */
  method BlockToUll(b: Block) returns (ret: nat)
    requires |b.bits| <= UllBits
    ensures ret == ToNat(b.bits)
    ensures ret < Pow2(|b.bits|)
  {
    var n := |b.bits|;
    ret := 0;
    var i := 0;
    while i < n
      invariant 0 <= i <= n
      invariant ret == ToNat(b.bits[..i]) * Pow2(n - i)
    {
      PrefixStep(b.bits, i);
      if GetBit(b, i) {
        ret := ret + Pow2(n - i - 1);
      }
      i := i + 1;
    }
    assert b.bits[..n] == b.bits;
    ToNatBound(b.bits);
  }

  lemma PrefixStep(s: seq<bool>, i: nat)
    requires i < |s|
    ensures ToNat(s[..i + 1]) * Pow2(|s| - i - 1)
         == ToNat(s[..i]) * Pow2(|s| - i) + B2N(s[i]) * Pow2(|s| - i - 1)
  {
    assert s[..i + 1][..i] == s[..i];
    var p := Pow2(|s| - i - 1);
    assert Pow2(|s| - i) == 2 * p;
    calc {
      ToNat(s[..i + 1]) * p;
      (2 * ToNat(s[..i]) + B2N(s[i])) * p;
      { assert (2 * ToNat(s[..i]) + B2N(s[i])) * p == ToNat(s[..i]) * (2 * p) + B2N(s[i]) * p; }
      ToNat(s[..i]) * (2 * p) + B2N(s[i]) * p;
    }
  }

  /**
   * pgb_ull_to_block: the block keeps its size and mark, and its bits become
   * the low-order |bits| bits of v, so reading them back yields v mod 2^size.
   */
  function UllToBlock(b: Block, v: nat): (r: Block)
    requires |b.bits| <= UllBits && v < Pow2(UllBits)
    ensures |r.bits| == |b.bits| && r.used == b.used
    ensures ToNat(r.bits) == v % Pow2(|b.bits|)
    ensures forall i :: 0 <= i < |b.bits| ==> r.bits[|b.bits| - 1 - i] == ((v / Pow2(i)) % 2 == 1)
  {
    ToNatFromNat(|b.bits|, v);
    forall i | 0 <= i < |b.bits|
      ensures FromNat(|b.bits|, v)[|b.bits| - 1 - i] == ((v / Pow2(i)) % 2 == 1)
    {
      FromNatBit(|b.bits|, v, i);
    }
    b.(bits := FromNat(|b.bits|, v))
  }

  /** Writing a block's own value back into it changes nothing. */
  lemma UllToBlockOfOwnValue(b: Block)
    requires |b.bits| <= UllBits
    ensures ToNat(b.bits) < Pow2(UllBits) && UllToBlock(b, ToNat(b.bits)) == b
  {
    ToNatBound(b.bits);
    FromNatToNat(b.bits);
    assert Pow2(|b.bits|) <= Pow2(UllBits) by { Pow2Monotone(|b.bits|, UllBits); }
  }

  lemma {:induction false} Pow2Monotone(a: nat, b: nat)
    requires a <= b
    ensures Pow2(a) <= Pow2(b)
  {
    if a < b {
      Pow2Monotone(a, b - 1);
    }
  }

  // ---------------------------------------------------------------------
  // Binary strings

  /** A C string has no NUL before its end, so strlen is its length. */
  predicate CString(s: string)
  {
    forall i :: 0 <= i < |s| ==> s[i] != '\0'
  }

  /**
   * pgb_binary_string_to_block: bit i becomes (s[i] == '1') for i < strlen(s);
   * the block is written without bounds checks, so s must fit.
   */
  function BinaryStringToBlock(b: Block, s: string): (r: Block)
    requires CString(s) && |s| <= |b.bits|
    ensures |r.bits| == |b.bits| && r.used == b.used
    ensures forall i :: 0 <= i < |s| ==> r.bits[i] == (s[i] == '1')
    ensures forall i :: |s| <= i < |b.bits| ==> r.bits[i] == b.bits[i]
  {
    b.(bits := seq(|s|, i requires 0 <= i < |s| => s[i] == '1') + b.bits[|s|..])
  }

  /** The characters pgb_show_block prints for a block, one digit per bit. */
  function BitsToString(bits: seq<bool>): (s: string)
    ensures |s| == |bits|
  {
    seq(|bits|, i requires 0 <= i < |bits| => if bits[i] then '1' else '0')
  }

  predicate BinaryDigits(s: string)
  {
    forall i :: 0 <= i < |s| ==> s[i] == '0' || s[i] == '1'
  }

  /** Loading a full-length string of binary digits and printing it back is the identity. */
  lemma BinaryStringRoundTrip(b: Block, s: string)
    requires BinaryDigits(s) && |s| == |b.bits|
    ensures BitsToString(BinaryStringToBlock(b, s).bits) == s
  {
  }

  // ---------------------------------------------------------------------
  // Block operations

  /**
   * pgb_divmod2: the remainder of the dividend by the divisor over GF(2), in a
   * fresh unmarked block of |divisor|-1 bits.  The dividend is a value and is
   * therefore left unchanged.  The loop bound |dividend|-|divisor|+1 is
   * unsigned in C, so the dividend must have at least |divisor|-1 bits.
   * What the remainder means is proved in module Gf2: Gf2.DivisionIdentity
   * (dividend = quotient * divisor + remainder for a divisor with leading
   * bit 1), Gf2.ReductionClearsQuotient and Gf2.RemainderLinear.
   */
  function DivMod2(dividend: Block, divisor: Block): (q: Block)
    requires 1 <= |divisor.bits| <= |dividend.bits| + 1
    ensures |q.bits| == |divisor.bits| - 1 && !q.used
    ensures q.bits == Gf2.Remainder(dividend.bits, divisor.bits)
  {
    Block(Gf2.Remainder(dividend.bits, divisor.bits), false)
  }

  /** pgb_xor: target[i] ^= pattern[i] for every i below the target's size. */
  function XorBlock(target: Block, pattern: Block): (r: Block)
    requires |target.bits| <= |pattern.bits|
    ensures |r.bits| == |target.bits| && r.used == target.used
    ensures forall i :: 0 <= i < |target.bits| ==> r.bits[i] == (target.bits[i] != pattern.bits[i])
  {
    target.(bits := Bits.Xor(target.bits, pattern.bits[..|target.bits|]))
  }

  /** XOR-ing the same pattern twice restores the target. */
  lemma XorTwice(target: Block, pattern: Block)
    requires |target.bits| <= |pattern.bits|
    ensures XorBlock(XorBlock(target, pattern), pattern) == target
  {
  }

  /** The bits of b at the listed positions, in list order. */
  function Gather(b: Block, idx: seq<nat>): (r: seq<bool>)
    requires forall k :: 0 <= k < |idx| ==> idx[k] < |b.bits|
    ensures |r| == |idx|
  {
    seq(|idx|, k requires 0 <= k < |idx| => b.bits[idx[k]])
  }

  /** pgb_multixor: the parity of the bits at the listed positions. */
  function MultiXor(b: Block, idx: seq<nat>): bool
    requires forall k :: 0 <= k < |idx| ==> idx[k] < |b.bits|
  {
    if |idx| == 0 then false
    else MultiXor(b, idx[..|idx| - 1]) != b.bits[idx[|idx| - 1]]
  }

  /** The XOR fold is the parity of the number of set bits it visits. */
  lemma {:induction false} MultiXorIsParity(b: Block, idx: seq<nat>)
    requires forall k :: 0 <= k < |idx| ==> idx[k] < |b.bits|
    ensures MultiXor(b, idx) <==> Weight(Gather(b, idx)) % 2 == 1
  {
    if |idx| > 0 {
      var last := |idx| - 1;
      assert Gather(b, idx)[..last] == Gather(b, idx[..last]);
      MultiXorIsParity(b, idx[..last]);
    }
  }

  /** Parity over a fixed index list is linear in the block. */
  lemma {:induction false} MultiXorLinear(a: Block, c: Block, idx: seq<nat>)
    requires |a.bits| == |c.bits|
    requires forall k :: 0 <= k < |idx| ==> idx[k] < |a.bits|
    ensures MultiXor(XorBlock(a, c), idx) == (MultiXor(a, idx) != MultiXor(c, idx))
  {
    if |idx| > 0 {
      MultiXorLinear(a, c, idx[..|idx| - 1]);
    }
  }

  /**
   * pgb_copy: fatal if either range overruns its block; otherwise
   * dst[d+k] = src[s+k] for k < amount and every other bit and the mark stay.
   */
  function Copy(dst: Block, d: nat, src: Block, s: nat, amount: nat): (r: Result<Block>)
    ensures r.Ok? <==> d + amount <= |dst.bits| && s + amount <= |src.bits|
    ensures r.Ok? ==> |r.value.bits| == |dst.bits| && r.value.used == dst.used
    ensures r.Ok? ==> forall j :: d <= j < d + amount ==> r.value.bits[j] == src.bits[s + (j - d)]
    ensures r.Ok? ==> forall j :: 0 <= j < |dst.bits| && !(d <= j < d + amount) ==> r.value.bits[j] == dst.bits[j]
  {
    if d + amount > |dst.bits| || s + amount > |src.bits| then Fail(RangeError)
    else Ok(dst.(bits := dst.bits[..d] + src.bits[s..s + amount] + dst.bits[d + amount..]))
  }
}
