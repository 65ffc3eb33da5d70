/**
 * Re-chunking, pgt_blocks_to_blocks (pegasus_tools.c:53-88): the blocks of
 * one size are read as one serial bit stream and cut into blocks of another
 * size, the last one padded with the zeros it was allocated with.
 */
module Rechunk {
  import opened Bits
  import opened Wrappers
  import opened Block

  /** The serial bit stream of an array of blocks. */
  function Flatten(bs: seq<Block>): (s: seq<bool>)
  {
    if |bs| == 0 then [] else bs[0].bits + Flatten(bs[1..])
  }

  /** Number of target blocks: the integer quotient, plus one for a remainder. */
  function CeilDiv(a: nat, t: nat): (c: nat)
    requires t > 0
  {
    a / t + (if a % t != 0 then 1 else 0)
  }

  lemma CeilDivBounds(a: nat, t: nat)
    requires t > 0
    ensures CeilDiv(a, t) * t >= a
    ensures CeilDiv(a, t) * t < a + t
    ensures a > 0 ==> CeilDiv(a, t) > 0
  {
    assert a == (a / t) * t + a % t;
    if a % t != 0 {
      assert CeilDiv(a, t) * t == (a / t) * t + t;
    }
  }

  /** k is (k div t) whole blocks of t plus the remainder. */
  lemma DivParts(k: nat, t: nat)
    requires t > 0
    ensures (k / t) * t + k % t == k
  {
  }

  lemma DivBelow(k: nat, t: nat, cnt: nat)
    requires t > 0 && k < cnt * t
    ensures k / t < cnt
  {
    DivParts(k, t);
    if k / t >= cnt {
      MulLe(cnt, k / t, t);
    }
  }

  lemma MulLe(a: nat, b: nat, t: nat)
    requires a <= b
    ensures a * t <= b * t
  {
  }

  lemma {:induction false} FlattenLength(bs: seq<Block>, size: nat)
    requires Uniform(bs, size)
    ensures |Flatten(bs)| == |bs| * size
  {
    if |bs| > 0 {
      FlattenLength(bs[1..], size);
      assert |bs| * size == size + (|bs| - 1) * size;
    }
  }

  /** Bit k of a stream of equal blocks of `size` bits sits in block k/size at k%size. */
  lemma {:induction false} FlattenIndex(bs: seq<Block>, size: nat, k: nat)
    requires Uniform(bs, size) && k < |bs| * size
    ensures |Flatten(bs)| == |bs| * size
    ensures size > 0 && k / size < |bs| && Flatten(bs)[k] == bs[k / size].bits[k % size]
  {
    FlattenLength(bs, size);
    var tail := bs[1..];
    FlattenLength(tail, size);
    assert |bs| * size == size + |tail| * size;
    assert size > 0;
    assert Flatten(bs) == bs[0].bits + Flatten(tail);
    if k < size {
      DivModUnique(k, size, 0, k);
    } else {
      var k' := k - size;
      FlattenIndex(tail, size, k');
      DivModStep(k', size);
      assert Flatten(bs)[k] == Flatten(tail)[k'];
      assert tail[k' / size] == bs[k / size];
    }
  }

  /**
   * The target blocks after the serial bits below `done` have been placed:
   * position p of block b holds stream bit b*t+p if that bit was placed, else
   * the zero it was created with.
   */
  function Placed(s: seq<bool>, t: nat, cnt: nat, done: nat): (r: seq<Block>)
    requires done <= |s|
    ensures |r| == cnt && Uniform(r, t)
  {
    seq(cnt, b requires 0 <= b < cnt =>
      Block(seq(t, p requires 0 <= p < t => if b * t + p < done then s[b * t + p] else false), false))
  }

  /** The re-segmentation of a bit stream into ceil(|s|/t) blocks of t bits. */
  function Split(s: seq<bool>, t: nat): (r: seq<Block>)
    requires t > 0
    ensures |r| == CeilDiv(|s|, t) && Uniform(r, t)
  {
    Placed(s, t, CeilDiv(|s|, t), |s|)
  }

  lemma PlacedStep(s: seq<bool>, t: nat, cnt: nat, k: nat)
    requires t > 0 && k < |s| && k < cnt * t
    ensures k / t < cnt
    ensures Placed(s, t, cnt, k + 1)
         == Placed(s, t, cnt, k)[k / t := CopyBit(Placed(s, t, cnt, k)[k / t], k % t, Block([s[k]], false), 0)]
  {
    DivBelow(k, t, cnt);
    DivParts(k, t);
    var a := Placed(s, t, cnt, k + 1);
    var c := Placed(s, t, cnt, k)[k / t := CopyBit(Placed(s, t, cnt, k)[k / t], k % t, Block([s[k]], false), 0)];
    forall b | 0 <= b < cnt
      ensures a[b] == c[b]
    {
      forall p | 0 <= p < t
        ensures a[b].bits[p] == c[b].bits[p]
      {
        if b * t + p == k {
          DivModUnique(k, t, b, p);
        }
      }
    }
  }

  /** Copies bit j of `src` to serial position k of equal blocks of t bits. */
  function PutBit(target: seq<Block>, t: nat, k: nat, src: Block, j: nat): (r: seq<Block>)
    requires t > 0 && k / t < |target| && Uniform(target, t) && j < |src.bits|
    ensures |r| == |target| && Uniform(r, t)
  {
    target[k / t := CopyBit(target[k / t], k % t, src, j)]
  }

  /** One iteration of the inner copy loop: source bit j of block i is serial bit i*size+j. */
  lemma CopyStep(src: seq<Block>, size: nat, t: nat, cnt: nat, i: nat, j: nat, k: nat)
    requires Uniform(src, size) && t > 0 && i < |src| && j < size && k == i * size + j
    requires |src| * size <= cnt * t
    ensures k < |Flatten(src)| && k / t < cnt
    ensures Placed(Flatten(src), t, cnt, k + 1) == PutBit(Placed(Flatten(src), t, cnt, k), t, k, src[i], j)
  {
    var s := Flatten(src);
    StreamBit(src, size, t, cnt, i, j, k);
    PutStreamBit(s, t, cnt, k, src[i], j);
  }

  /** Bit j of source block i is stream bit k, and the targets have room for it. */
  lemma StreamBit(src: seq<Block>, size: nat, t: nat, cnt: nat, i: nat, j: nat, k: nat)
    requires Uniform(src, size) && t > 0 && i < |src| && j < size && k == i * size + j
    requires |src| * size <= cnt * t
    ensures k < |Flatten(src)| && k < cnt * t && Flatten(src)[k] == src[i].bits[j]
  {
    RowMajorBelow(i, j, size, |src|);
    FlattenIndex(src, size, k);
    DivModUnique(k, size, i, j);
  }

  /** Position j of row i of n rows of `size` lies inside the n * size positions. */
  lemma RowMajorBelow(i: nat, j: nat, size: nat, n: nat)
    requires i < n && j < size
    ensures i * size + j < n * size && size * i + j == i * size + j
  {
    assert i * size + j < i * size + size == (i + 1) * size;
    MulLe(i + 1, n, size);
  }

  /** Placing stream bit k is PutBit of any source bit that holds the same value. */
  lemma PutStreamBit(s: seq<bool>, t: nat, cnt: nat, k: nat, b: Block, j: nat)
    requires t > 0 && k < |s| && k < cnt * t && j < |b.bits| && b.bits[j] == s[k]
    ensures k / t < cnt
    ensures Placed(s, t, cnt, k + 1) == PutBit(Placed(s, t, cnt, k), t, k, b, j)
  {
    PlacedStep(s, t, cnt, k);
    var before := Placed(s, t, cnt, k);
    assert CopyBit(before[k / t], k % t, Block([s[k]], false), 0) == CopyBit(before[k / t], k % t, b, j);
  }

  /** Freshly created target blocks are the placement of no bits at all. */
  lemma CreatedIsPlaced(s: seq<bool>, t: nat, cnt: nat)
    ensures CreateBlocks(cnt, t) == Placed(s, t, cnt, 0)
  {
    var a, c := CreateBlocks(cnt, t), Placed(s, t, cnt, 0);
    forall b | 0 <= b < cnt
      ensures a[b] == c[b]
    {
      assert a[b].bits == c[b].bits;
    }
  }

  /** The inner loop of pgt_blocks_to_blocks: all bits of source block i. */
  method CopyBlockBits(src: seq<Block>, size: nat, t: nat, count: nat, i: nat, target: seq<Block>)
    returns (r: seq<Block>)
    requires Uniform(src, size) && t > 0 && i < |src| && |src| * size <= count * t
    requires (i + 1) * size <= |Flatten(src)|
    requires target == Placed(Flatten(src), t, count, i * size)
    ensures r == Placed(Flatten(src), t, count, (i + 1) * size)
  {
    assert i * size + size == (i + 1) * size;
    r := target;
    var j := 0;
    while j < size
      invariant 0 <= j <= size
      invariant r == Placed(Flatten(src), t, count, i * size + j)
    {
      var k := i * size + j;
      CopyStep(src, size, t, count, i, j, k);
      r := PutBit(r, t, k, src[i], j);
      j := j + 1;
    }
  }

  /**
   * pgt_blocks_to_blocks.  A NULL source gives count 0.  A target size of 0
   * means "the source block size".  The count is ceil(count*size/target) and
   * source bit j of block i is copied to serial position i*size+j.  The C
   * code reads the size of source block 0, so a non-NULL source holds at
   * least one block, and it divides by the target size, which must end up
   * nonzero.
   */
  method BlocksToBlocks(source: Option<seq<Block>>, targetSize: nat) returns (count: nat, target: seq<Block>)
    requires source.Some? ==> |source.value| >= 1 && Uniform(source.value, |source.value[0].bits|)
    requires source.Some? ==> targetSize > 0 || |source.value[0].bits| > 0
    ensures source.None? ==> count == 0 && target == []
    ensures source.Some? ==>
      var src := source.value;
      var size := |src[0].bits|;
      var t := if targetSize == 0 then size else targetSize;
      && count == |target| == CeilDiv(|src| * size, t)
      && target == Split(Flatten(src), t)
  {
    if source.None? {
      return 0, [];
    }
    var src := source.value;
    var size := |src[0].bits|;
    var t := if targetSize == 0 then size else targetSize;
    count := CeilDiv(|src| * size, t);
    target := CreateBlocks(count, t);
    FlattenLength(src, size);
    CeilDivBounds(|src| * size, t);
    CreatedIsPlaced(Flatten(src), t, count);
    var i := 0;
    while i < |src|
      invariant 0 <= i <= |src|
      invariant i * size <= |Flatten(src)|
      invariant target == Placed(Flatten(src), t, count, i * size)
    {
      MulLe(i + 1, |src|, size);
      target := CopyBlockBits(src, size, t, count, i, target);
      i := i + 1;
    }
  }

  // ---------------------------------------------------------------------
  // Properties of the re-segmentation

  /** Source serial bit k lands in target block k/t at position k mod t. */
  lemma SplitIndex(s: seq<bool>, t: nat, k: nat)
    requires t > 0 && k < |s|
    ensures k / t < CeilDiv(|s|, t)
    ensures Split(s, t)[k / t].bits[k % t] == s[k]
  {
    CeilDivBounds(|s|, t);
    DivBelow(k, t, CeilDiv(|s|, t));
    DivParts(k, t);
    PlacedBit(s, t, CeilDiv(|s|, t), |s|, k / t, k % t);
  }

  lemma PlacedBit(s: seq<bool>, t: nat, cnt: nat, done: nat, b: nat, p: nat)
    requires done <= |s| && b < cnt && p < t
    ensures Placed(s, t, cnt, done)[b].bits[p] == (b * t + p < done && s[b * t + p])
  {
  }

  /** Target bits beyond the stream stay as allocated: zero and unmarked. */
  lemma SplitPadding(s: seq<bool>, t: nat, b: nat, p: nat)
    requires t > 0 && b < CeilDiv(|s|, t) && p < t && b * t + p >= |s|
    ensures !Split(s, t)[b].bits[p] && !Split(s, t)[b].used
  {
  }

  function PadLength(n: nat, t: nat): nat
    requires t > 0
  {
    CeilDivBounds(n, t);
    CeilDiv(n, t) * t - n
  }

  /** Concatenating the target blocks gives the stream, zero-padded to a multiple of t. */
  lemma FlattenSplit(s: seq<bool>, t: nat)
    requires t > 0
    ensures Flatten(Split(s, t)) == s + Zeros(PadLength(|s|, t))
  {
    var r := Split(s, t);
    var z := s + Zeros(PadLength(|s|, t));
    FlattenLength(r, t);
    assert |Flatten(r)| == |z|;
    forall k | 0 <= k < |z|
      ensures Flatten(r)[k] == z[k]
    {
      FlattenSplitBit(s, t, k);
    }
  }

  /** Bit k of the concatenated targets: a stream bit, or a padding zero past the stream. */
  lemma FlattenSplitBit(s: seq<bool>, t: nat, k: nat)
    requires t > 0 && k < |Split(s, t)| * t
    ensures |Flatten(Split(s, t))| == |Split(s, t)| * t
    ensures Flatten(Split(s, t))[k] == (k < |s| && s[k])
  {
    var r := Split(s, t);
    FlattenIndex(r, t, k);
    if k < |s| {
      SplitIndex(s, t, k);
    } else {
      DivParts(k, t);
      SplitPadding(s, t, k / t, k % t);
    }
  }

  /** Re-chunking is lossless: the source stream is a prefix, and only zeros follow. */
  lemma RechunkLossless(bs: seq<Block>, size: nat, t: nat)
    requires Uniform(bs, size) && t > 0
    ensures |bs| * size <= |Flatten(Split(Flatten(bs), t))|
    ensures Flatten(Split(Flatten(bs), t))[..|bs| * size] == Flatten(bs)
    ensures AllZero(Flatten(Split(Flatten(bs), t))[|bs| * size..])
  {
    FlattenLength(bs, size);
    FlattenSplit(Flatten(bs), t);
  }

  /** A stream followed by zeros, then zero-padded, is the stream followed by zeros. */
  lemma PadTwice(s: seq<bool>, m: nat, t: nat)
    requires t > 0
    ensures Flatten(Split(s + Zeros(m), t)) == s + Zeros(m + PadLength(|s| + m, t))
  {
    FlattenSplit(s + Zeros(m), t);
    assert s + Zeros(m) + Zeros(PadLength(|s| + m, t)) == s + Zeros(m + PadLength(|s| + m, t));
  }

  /**
   * Re-chunking into s1 and then into s2 gives the same stream as
   * re-chunking into s2 directly, up to trailing zero padding.
   */
  lemma RechunkTwice(s: seq<bool>, s1: nat, s2: nat)
    requires s1 > 0 && s2 > 0
    ensures exists m: nat :: Flatten(Split(Flatten(Split(s, s1)), s2)) == s + Zeros(m)
    ensures exists m: nat :: Flatten(Split(s, s2)) == s + Zeros(m)
  {
    FlattenSplit(s, s1);
    var m1 := PadLength(|s|, s1);
    PadTwice(s, m1, s2);
    FlattenSplit(s, s2);
  }
}
