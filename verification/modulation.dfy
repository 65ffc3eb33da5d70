/**
 * Modulation and demodulation (pegasus_modulation.c): a block of
 * BlockSize bits is sent as the table point its big-endian value selects,
 * and a received signal is turned back into the index of the nearest table
 * point.  The received signal and the distance function stay abstract: the
 * C code computes them in floating point.
 */
module Modulation {
  import opened Bits
  import opened Wrappers
  import opened Block
  import opened ModulationSchemes
  import opened Constellation
  import Tools

  /** pgm_modulate_block: the table point the block's value selects; an unknown scheme is fatal. */
  function ModulateBlock(b: Block, id: nat): (r: Result<Point>)
    requires FromId(id).Some? ==> ToNat(b.bits) < Volume(FromId(id).value)
    ensures r.Fail? <==> FromId(id).None?
    ensures r.Fail? ==> r.error == SwitchDefault
    ensures r.Ok? ==> r.value == Table(FromId(id).value)[ToNat(b.bits)]
  {
    match FromId(id)
    case None => Fail(SwitchDefault)
    case Some(m) => Ok(Table(m)[ToNat(b.bits)])
  }

  /** The blocks the C code can look up without reading past the table. */
  predicate InTable(blocks: seq<Block>, id: nat)
  {
    forall i :: 0 <= i < |blocks| ==> FromId(id).Some? ==> ToNat(blocks[i].bits) < Volume(FromId(id).value)
  }

  /**
   * pgm_modulate: NULL gives count 0; otherwise one point per block.  The
   * scheme is only looked at per block, so an unknown scheme is fatal only
   * when there is at least one block.
   */
  function Modulate(source: Option<seq<Block>>, id: nat): (r: Result<(nat, seq<Point>)>)
    requires source.Some? ==> InTable(source.value, id)
    ensures source.None? ==> r == Ok((0, []))
    ensures source.Some? ==> (r.Fail? <==> |source.value| > 0 && FromId(id).None?)
    ensures r.Fail? ==> r.error == SwitchDefault
    ensures r.Ok? && source.Some? ==>
      && r.value.0 == |source.value| == |r.value.1|
      && forall i :: 0 <= i < |source.value| ==> ModulateBlock(source.value[i], id) == Ok(r.value.1[i])
  {
    match source
    case None => Ok((0, []))
    case Some(blocks) =>
      if |blocks| == 0 then Ok((0, []))
      else match FromId(id)
        case None => Fail(SwitchDefault)
        case Some(m) =>
          Ok((|blocks|, seq(|blocks|, i requires 0 <= i < |blocks| => Table(m)[ToNat(blocks[i].bits)])))
  }

  // ---------------------------------------------------------------------
  // pgm_find_block

  /** Some point after the first lies closer than the early-exit threshold. */
  ghost predicate SomeClose<S, P>(x: S, table: seq<P>, minimum: real, dist: (S, P) -> real)
  {
    exists i :: 1 <= i < |table| && dist(x, table[i]) < minimum
  }

  /**
   * What pgm_find_block returns, stated without its loop: the first index
   * from 1 on whose distance is below the threshold, if there is one;
   * otherwise the first index of least distance.
   */
  ghost predicate Nearest<S, P>(x: S, table: seq<P>, minimum: real, dist: (S, P) -> real, k: nat)
  {
    && k < |table|
    && if SomeClose(x, table, minimum, dist) then
         && 1 <= k && dist(x, table[k]) < minimum
         && forall i :: 1 <= i < k ==> dist(x, table[i]) >= minimum
       else
         && (forall i :: 0 <= i < |table| ==> dist(x, table[k]) <= dist(x, table[i]))
         && (forall i :: 0 <= i < k ==> dist(x, table[k]) < dist(x, table[i]))
  }

  /** The description determines the index: there is at most one. */
  lemma NearestUnique<S, P>(x: S, table: seq<P>, minimum: real, dist: (S, P) -> real, k: nat, k': nat)
    requires Nearest(x, table, minimum, dist, k) && Nearest(x, table, minimum, dist, k')
    ensures k == k'
  {
    if SomeClose(x, table, minimum, dist) {
      assert dist(x, table[k]) < minimum && dist(x, table[k']) < minimum;
    } else {
      assert dist(x, table[k]) <= dist(x, table[k']) && dist(x, table[k']) <= dist(x, table[k]);
    }
  }

  /**
   * pgm_find_block: scan from index 1, stop at the first point closer than
   * the threshold, otherwise keep the first point of least distance (only
   * a strictly smaller distance replaces the best so far).
   */
  method FindBlock<S, P>(x: S, table: seq<P>, minimum: real, dist: (S, P) -> real) returns (index: nat)
    requires |table| >= 1
    ensures Nearest(x, table, minimum, dist, index)
  {
    index := 0;
    var minDistance := dist(x, table[0]);
    var i := 1;
    while i < |table|
      invariant 1 <= i <= |table| && index < i
      invariant minDistance == dist(x, table[index])
      invariant forall j :: 1 <= j < i ==> dist(x, table[j]) >= minimum
      invariant forall j :: 0 <= j < i ==> minDistance <= dist(x, table[j])
      invariant forall j :: 0 <= j < index ==> minDistance < dist(x, table[j])
    {
      var current := dist(x, table[i]);
      if current < minimum {
        index := i;
        break;
      }
      if current < minDistance {
        index := i;
        minDistance := current;
      }
      i := i + 1;
    }
  }

  /** The points of a table are told apart: each is at distance 0 from itself and at least `minimum` from the others. */
  ghost predicate Separated<P>(table: seq<P>, minimum: real, dist: (P, P) -> real)
  {
    && minimum > 0.0
    && (forall k :: 0 <= k < |table| ==> dist(table[k], table[k]) == 0.0)
    && (forall j, k :: 0 <= j < |table| && 0 <= k < |table| && j != k ==> dist(table[k], table[j]) >= minimum)
  }

  /** Without noise the search finds the point that was sent, whatever its index. */
  lemma ZeroNoise<P>(table: seq<P>, minimum: real, dist: (P, P) -> real, k: nat)
    requires Separated(table, minimum, dist) && k < |table|
    ensures Nearest(table[k], table, minimum, dist, k)
    ensures forall k' :: Nearest(table[k], table, minimum, dist, k') ==> k' == k
  {
    var x := table[k];
    if k >= 1 {
      assert dist(x, table[k]) < minimum;
      assert SomeClose(x, table, minimum, dist);
    } else {
      assert !SomeClose(x, table, minimum, dist);
    }
    forall k' | Nearest(x, table, minimum, dist, k')
      ensures k' == k
    {
      NearestUnique(x, table, minimum, dist, k, k');
    }
  }

  // ---------------------------------------------------------------------
  // pgm_demodulate

  /**
   * The demodulated blocks: one fresh block of the scheme's size per
   * signal, holding the index the search picks for it.
   */
  ghost predicate Demodulated<S>(signals: seq<S>, m: Scheme, minimum: real, dist: (S, Point) -> real, out: seq<Block>)
  {
    && |out| == |signals|
    && forall i :: 0 <= i < |signals| ==>
         && |out[i].bits| == BlockSize(m) && !out[i].used
         && Nearest(signals[i], Table(m), minimum, dist, ToNat(out[i].bits))
  }

  /**
   * pgm_demodulate.  NULL gives count 0.  Otherwise the output blocks are
   * created with pgm_get_block_size, which is fatal for an unknown scheme
   * even when there are no signals, and each is filled by pgm_find_block
   * with the scheme's table and threshold; `value` gives the threshold's
   * numeric value.
   */
  method Demodulate<S>(signals: Option<seq<S>>, id: nat, dist: (S, Point) -> real, value: Threshold -> real)
    returns (r: Result<(nat, seq<Block>)>)
    ensures signals.None? ==> r == Ok((0, []))
    ensures signals.Some? ==> (r.Fail? <==> FromId(id).None?)
    ensures r.Fail? ==> r.error == SwitchDefault
    ensures r.Ok? && signals.Some? ==>
      && r.value.0 == |signals.value|
      && Demodulated(signals.value, FromId(id).value, value(Minimum(FromId(id).value)), dist, r.value.1)
  {
    if signals.None? {
      return Ok((0, []));
    }
    var received := signals.value;
    var size := GetBlockSize(id);
    if size.Fail? {
      return Fail(SwitchDefault);
    }
    var m := FromId(id).value;
    var table := InitTable(m);
    var out := FindBlocks(received, table, BlockSize(m), value(Minimum(m)), dist);
    return Ok((|received|, out));
  }

  /** pgb_ull_to_block(block, index) for an index that fits the block. */
  function IndexToBlock(b: Block, k: nat): (r: Block)
    requires |b.bits| <= UllBits && k < Pow2(|b.bits|)
    ensures |r.bits| == |b.bits| && r.used == b.used && ToNat(r.bits) == k
  {
    Pow2Monotone(|b.bits|, UllBits);
    var r := UllToBlock(b, k);
    Tools.ModSmall(k, Pow2(|b.bits|));
    r
  }

  /** The loop of pgm_demodulate: each signal is searched for in the table, and its index stored in a fresh block. */
  method FindBlocks<S>(received: seq<S>, table: seq<Point>, size: nat, minimum: real, dist: (S, Point) -> real)
    returns (out: seq<Block>)
    requires size <= UllBits && |table| == Pow2(size)
    ensures |out| == |received|
    ensures forall j :: 0 <= j < |out| ==> |out[j].bits| == size && !out[j].used
    ensures forall j :: 0 <= j < |out| ==> Nearest(received[j], table, minimum, dist, ToNat(out[j].bits))
  {
    out := CreateBlocks(|received|, size);
    Pow2Monotone(size, UllBits);
    var i := 0;
    while i < |received|
      invariant 0 <= i <= |received| && |out| == |received|
      invariant forall j :: 0 <= j < |out| ==> |out[j].bits| == size && !out[j].used
      invariant forall j :: 0 <= j < i ==> Nearest(received[j], table, minimum, dist, ToNat(out[j].bits))
    {
      var k := FindBlock(received[i], table, minimum, dist);
      out := out[i := IndexToBlock(out[i], k)];
      i := i + 1;
    }
  }

  /**
   * The round trip the self-test expects: when the table points are
   * separated, demodulating the modulated blocks without noise gives back
   * every block, as a fresh unmarked block of the scheme's size.
   */
  lemma ZeroNoiseRoundTrip(blocks: seq<Block>, id: nat, dist: (Point, Point) -> real, value: Threshold -> real, out: seq<Block>)
    requires FromId(id).Some? && |blocks| > 0
    requires Uniform(blocks, BlockSize(FromId(id).value)) && InTable(blocks, id)
    requires Separated(Table(FromId(id).value), value(Minimum(FromId(id).value)), dist)
    requires Demodulated(Modulate(Some(blocks), id).value.1, FromId(id).value, value(Minimum(FromId(id).value)), dist, out)
    ensures out == seq(|blocks|, i requires 0 <= i < |blocks| => Block(blocks[i].bits, false))
  {
    var m := FromId(id).value;
    var minimum := value(Minimum(m));
    var signals := Modulate(Some(blocks), id).value.1;
    forall i | 0 <= i < |blocks|
      ensures out[i] == Block(blocks[i].bits, false)
    {
      var k := ToNat(blocks[i].bits);
      assert signals[i] == Table(m)[k];
      ZeroNoise(Table(m), minimum, dist, k);
      ToNatInjective(out[i].bits, blocks[i].bits);
    }
  }
}
