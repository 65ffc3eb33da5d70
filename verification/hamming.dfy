/**
 * The Hamming(7,4) coder of pegasus_fec.c:275-284 and 363-380.  Its parity
 * and syndrome index arrays, PGF_HAMMING74_FEC_BITS and
 * PGF_HAMMING74_SYNDROME_BITS, are declared in a header that is not part of
 * this model, so they are parameters here; the properties are proved for any
 * arrays meeting CorrectsSingleErrors, and the standard layout is shown to
 * meet it.
 */
module Hamming {
  import opened Bits
  import opened Wrappers
  import opened Block

  /** Three rows of `width` indices, each below `bound`. */
  predicate IndexArray(a: seq<seq<nat>>, width: nat, bound: nat)
  {
    |a| == 3 && forall i :: 0 <= i < 3 ==> |a[i]| == width && forall k :: 0 <= k < width ==> a[i][k] < bound
  }

  /** The parity rows index the 4 data bits; the syndrome rows index the 7 code bits. */
  predicate HammingArrays(fecBits: seq<seq<nat>>, synBits: seq<seq<nat>>)
  {
    IndexArray(fecBits, 3, 4) && IndexArray(synBits, 4, 7)
  }

  /**
   * pgf_encode_block_hamming74: copy the 4 data bits, then set bit 4+i to the
   * parity of the data bits fecBits[i] lists.  The copy is range-checked; the
   * three parity writes are not, so the target holds at least 7 bits.
   */
  function Encode(target: Block, src: Block, fecBits: seq<seq<nat>>): (r: Result<Block>)
    requires IndexArray(fecBits, 3, 4) && |target.bits| >= 7
    ensures r.Ok? <==> |src.bits| >= 4
    ensures r.Ok? ==> |r.value.bits| == |target.bits| && r.value.used == target.used
    ensures r.Ok? ==> r.value.bits[..4] == src.bits[..4]
    ensures r.Ok? ==> forall i :: 0 <= i < 3 ==> r.value.bits[4 + i] == MultiXor(src, fecBits[i])
    ensures r.Ok? ==> r.value.bits[7..] == target.bits[7..]
    ensures r.Fail? ==> r.error == RangeError
  {
    var x :- Copy(target, 0, src, 0, 4);
    var y := SetBit(SetBit(SetBit(x, 4, MultiXor(src, fecBits[0])), 5, MultiXor(src, fecBits[1])), 6, MultiXor(src, fecBits[2]));
    assert y.bits[..4] == src.bits[..4];
    Ok(y)
  }

  /** The 3 syndrome bits of a received word: the parities synBits lists. */
  function SyndromeBits(e: seq<bool>, synBits: seq<seq<nat>>): (s: seq<bool>)
    requires IndexArray(synBits, 4, 7) && |e| >= 7
    ensures |s| == 3
  {
    var b := Block(e, false);
    [MultiXor(b, synBits[0]), MultiXor(b, synBits[1]), MultiXor(b, synBits[2])]
  }

  /**
   * pgf_decode_block_hamming74: the syndrome, read as a 3-bit big-endian
   * number w, is computed first (its reads are unchecked); then the 4 data
   * bits are copied and bit w-1 is flipped when 1 <= w <= 4.
   */
  function Decode(target: Block, e: Block, synBits: seq<seq<nat>>): (r: Result<Block>)
    requires IndexArray(synBits, 4, 7) && |e.bits| >= 7
    ensures r.Ok? <==> |target.bits| >= 4
    ensures r.Ok? ==> |r.value.bits| == |target.bits| && r.value.used == target.used
    ensures r.Ok? ==> var w := ToNat(SyndromeBits(e.bits, synBits));
      forall j :: 0 <= j < 4 ==> r.value.bits[j] == (e.bits[j] != (w == j + 1))
    ensures r.Ok? ==> r.value.bits[4..] == target.bits[4..]
    ensures r.Fail? ==> r.error == RangeError
  {
    var wrong := ToNat(SyndromeBits(e.bits, synBits));
    var x :- Copy(target, 0, e, 0, 4);
    if 0 < wrong <= 4 then
      var y := FlipBit(x, wrong - 1);
      assert y.bits[4..] == x.bits[4..];
      Ok(y)
    else
      assert x.bits[4..] == target.bits[4..];
      Ok(x)
  }

  // ---------------------------------------------------------------------
  // Single-error correction

  /** The codeword of a 4-bit data word: the data followed by its 3 parity bits. */
  function Codeword(d: seq<bool>, fecBits: seq<seq<nat>>): (c: seq<bool>)
    requires |d| == 4 && IndexArray(fecBits, 3, 4)
    ensures |c| == 7 && c[..4] == d
  {
    var b := Block(d, false);
    d + [MultiXor(b, fecBits[0]), MultiXor(b, fecBits[1]), MultiXor(b, fecBits[2])]
  }

  /** The word with only bit j set. */
  function Unit(n: nat, j: nat): (u: seq<bool>)
    ensures |u| == n
  {
    seq(n, k => k == j)
  }

  /**
   * What the arrays must satisfy: every codeword has a zero syndrome, an
   * error in data bit j has syndrome j+1, and an error in a parity bit has a
   * syndrome outside 1..4.
   */
  ghost predicate CorrectsSingleErrors(fecBits: seq<seq<nat>>, synBits: seq<seq<nat>>)
  {
    && HammingArrays(fecBits, synBits)
    && (forall d: seq<bool> :: |d| == 4 ==> AllZero(SyndromeBits(Codeword(d, fecBits), synBits)))
    && (forall j :: 0 <= j < 7 ==>
          var w := ToNat(SyndromeBits(Unit(7, j), synBits));
          if j < 4 then w == j + 1 else !(1 <= w <= 4))
  }

  /** The textbook layout: parities d1^d2^d3, d0^d2^d3, d0^d1^d3 and the matching checks. */
  const StandardFecBits: seq<seq<nat>> := [[1, 2, 3], [0, 2, 3], [0, 1, 3]]
  const StandardSyndromeBits: seq<seq<nat>> := [[3, 4, 5, 6], [1, 2, 5, 6], [0, 2, 4, 6]]

  /** Parity over three listed bits, unfolded. */
  lemma MultiXor3(b: Block, i: nat, j: nat, k: nat)
    requires i < |b.bits| && j < |b.bits| && k < |b.bits|
    ensures MultiXor(b, [i, j, k]) == ((b.bits[i] != b.bits[j]) != b.bits[k])
  {
    assert [i][..0] == [];
    assert MultiXor(b, [i]) == b.bits[i];
    assert [i, j][..1] == [i];
    assert MultiXor(b, [i, j]) == (b.bits[i] != b.bits[j]);
    assert [i, j, k][..2] == [i, j];
  }

  /** Parity over four listed bits, unfolded. */
  lemma MultiXor4(b: Block, i: nat, j: nat, k: nat, l: nat)
    requires i < |b.bits| && j < |b.bits| && k < |b.bits| && l < |b.bits|
    ensures MultiXor(b, [i, j, k, l]) == (((b.bits[i] != b.bits[j]) != b.bits[k]) != b.bits[l])
  {
    assert [i, j, k, l][..3] == [i, j, k];
    MultiXor3(b, i, j, k);
  }

  /** The value of a 3-bit syndrome. */
  lemma ToNat3(s: seq<bool>)
    requires |s| == 3
    ensures ToNat(s) == 4 * B2N(s[0]) + 2 * B2N(s[1]) + B2N(s[2])
  {
    assert s[..2][..1][..0] == [];
    assert ToNat(s[..2][..1]) == B2N(s[0]);
    assert ToNat(s[..2]) == 2 * B2N(s[0]) + B2N(s[1]);
  }

  /** The textbook layout is a single-error-correcting Hamming(7,4) code. */
  lemma StandardArraysCorrect()
    ensures CorrectsSingleErrors(StandardFecBits, StandardSyndromeBits)
  {
    var f, s := StandardFecBits, StandardSyndromeBits;
    assert HammingArrays(f, s);
    forall d: seq<bool> | |d| == 4
      ensures AllZero(SyndromeBits(Codeword(d, f), s))
    {
      var b := Block(d, false);
      MultiXor3(b, 1, 2, 3);
      MultiXor3(b, 0, 2, 3);
      MultiXor3(b, 0, 1, 3);
      var c := Block(Codeword(d, f), false);
      MultiXor4(c, 3, 4, 5, 6);
      MultiXor4(c, 1, 2, 5, 6);
      MultiXor4(c, 0, 2, 4, 6);
    }
    forall j | 0 <= j < 7
      ensures var w := ToNat(SyndromeBits(Unit(7, j), s));
              if j < 4 then w == j + 1 else !(1 <= w <= 4)
    {
      var u := Block(Unit(7, j), false);
      MultiXor4(u, 3, 4, 5, 6);
      MultiXor4(u, 1, 2, 5, 6);
      MultiXor4(u, 0, 2, 4, 6);
      ToNat3(SyndromeBits(u.bits, s));
    }
  }

  /** Parity over indices below m only sees the first m bits. */
  lemma {:induction false} MultiXorPrefix(b: Block, m: nat, idx: seq<nat>)
    requires m <= |b.bits| && forall k :: 0 <= k < |idx| ==> idx[k] < m
    ensures MultiXor(b, idx) == MultiXor(Block(b.bits[..m], false), idx)
  {
    if |idx| > 0 {
      MultiXorPrefix(b, m, idx[..|idx| - 1]);
    }
  }

  /** The syndrome is linear in the received word. */
  lemma SyndromeLinear(a: seq<bool>, c: seq<bool>, synBits: seq<seq<nat>>)
    requires IndexArray(synBits, 4, 7) && |a| == |c| >= 7
    ensures SyndromeBits(Xor(a, c), synBits) == Xor(SyndromeBits(a, synBits), SyndromeBits(c, synBits))
  {
    var ba, bc := Block(a, false), Block(c, false);
    assert XorBlock(ba, bc) == Block(Xor(a, c), false);
    MultiXorLinear(ba, bc, synBits[0]);
    MultiXorLinear(ba, bc, synBits[1]);
    MultiXorLinear(ba, bc, synBits[2]);
  }

  /** Encoding into a fresh 7-bit block yields the codeword of the first 4 data bits. */
  lemma EncodeIsCodeword(src: Block, fecBits: seq<seq<nat>>)
    requires IndexArray(fecBits, 3, 4) && |src.bits| >= 4
    ensures Encode(CreateBlock(7), src, fecBits) == Ok(Block(Codeword(src.bits[..4], fecBits), false))
  {
    var r := Encode(CreateBlock(7), src, fecBits);
    var x := r.value.bits;
    var c := Codeword(src.bits[..4], fecBits);
    MultiXorPrefix(src, 4, fecBits[0]);
    MultiXorPrefix(src, 4, fecBits[1]);
    MultiXorPrefix(src, 4, fecBits[2]);
    assert x[..4] == c[..4];
    assert x[4..] == c[4..];
    assert x == x[..4] + x[4..] && c == c[..4] + c[4..];
  }

  /**
   * With arrays that correct single errors, a codeword with at most one bit
   * flipped decodes to its data bits.
   */
  lemma CorrectsOneError(fecBits: seq<seq<nat>>, synBits: seq<seq<nat>>, d: seq<bool>, j: nat)
    requires CorrectsSingleErrors(fecBits, synBits) && |d| == 4 && j < 7
    ensures Decode(CreateBlock(4), Block(Codeword(d, fecBits), false), synBits) == Ok(Block(d, false))
    ensures Decode(CreateBlock(4), Block(Xor(Codeword(d, fecBits), Unit(7, j)), false), synBits)
         == Ok(Block(d, false))
  {
    CleanDecodes(fecBits, synBits, d);
    FlipDecodes(fecBits, synBits, d, j);
  }

  /** A codeword has syndrome zero, so its data bits come out unchanged. */
  lemma CleanDecodes(fecBits: seq<seq<nat>>, synBits: seq<seq<nat>>, d: seq<bool>)
    requires CorrectsSingleErrors(fecBits, synBits) && |d| == 4
    ensures Decode(CreateBlock(4), Block(Codeword(d, fecBits), false), synBits) == Ok(Block(d, false))
  {
    var c := Codeword(d, fecBits);
    var s0 := SyndromeBits(c, synBits);
    assert AllZero(s0);
    ToNatZero(s0);
    DecodeGives(c, synBits, d);
  }

  /** A codeword with bit j flipped has the syndrome of bit j, which flips it back. */
  lemma FlipDecodes(fecBits: seq<seq<nat>>, synBits: seq<seq<nat>>, d: seq<bool>, j: nat)
    requires CorrectsSingleErrors(fecBits, synBits) && |d| == 4 && j < 7
    ensures Decode(CreateBlock(4), Block(Xor(Codeword(d, fecBits), Unit(7, j)), false), synBits)
         == Ok(Block(d, false))
  {
    var c := Codeword(d, fecBits);
    var e := Xor(c, Unit(7, j));
    SyndromeLinear(c, Unit(7, j), synBits);
    var s0 := SyndromeBits(c, synBits);
    assert AllZero(s0);
    assert SyndromeBits(e, synBits) == SyndromeBits(Unit(7, j), synBits);
    assert c[..4] == d;
    DecodeGives(e, synBits, d);
  }

  /** Decoding into a fresh 4-bit block gives d when each bit of d is the received bit, corrected by the syndrome. */
  lemma DecodeGives(e: seq<bool>, synBits: seq<seq<nat>>, d: seq<bool>)
    requires IndexArray(synBits, 4, 7) && |e| >= 7 && |d| == 4
    requires forall k :: 0 <= k < 4 ==> d[k] == (e[k] != (ToNat(SyndromeBits(e, synBits)) == k + 1))
    ensures Decode(CreateBlock(4), Block(e, false), synBits) == Ok(Block(d, false))
  {
    var r := Decode(CreateBlock(4), Block(e, false), synBits);
    assert r.value.bits == d;
  }

  /** Hamming round trip through the C entry points: encode, flip at most one bit, decode. */
  lemma RoundTrip(fecBits: seq<seq<nat>>, synBits: seq<seq<nat>>, src: Block, j: nat)
    requires CorrectsSingleErrors(fecBits, synBits) && |src.bits| >= 4 && j < 7
    ensures Encode(CreateBlock(7), src, fecBits).Ok?
    ensures var enc := Encode(CreateBlock(7), src, fecBits).value;
      && Decode(CreateBlock(4), enc, synBits) == Ok(Block(src.bits[..4], false))
      && Decode(CreateBlock(4), FlipBit(enc, j), synBits) == Ok(Block(src.bits[..4], false))
  {
    EncodeIsCodeword(src, fecBits);
    var c := Codeword(src.bits[..4], fecBits);
    assert FlipBit(Block(c, false), j) == Block(Xor(c, Unit(7, j)), false);
    CorrectsOneError(fecBits, synBits, src.bits[..4], j);
  }
}
