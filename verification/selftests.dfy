/**
 * The two round-trip self-tests of pegasus_selftests.c, pgst_fec_test and
 * pgst_modulator_test, without their printing.  Each splits one generated
 * block into the stage's input blocks, codes and decodes them, joins the
 * result back into blocks of the generated length and measures the BER
 * against the generated block.  The generated bits are a parameter
 * (pgs_generate draws them at random).  A stage that yields no blocks ends
 * the C test with pgp_nodata, and an unknown scheme ends it with
 * pgp_switch_default; the methods below show that neither happens.
 */
module SelfTests {
  import opened Bits
  import opened Wrappers
  import opened Block
  import FecSchemes
  import ModulationSchemes
  import Constellation
  import Fec
  import Modulation
  import Rechunk
  import Tools

  /** The blocks with their `used` marks cleared, as the decoders return them. */
  function Unmarked(bs: seq<Block>): (r: seq<Block>)
    ensures |r| == |bs| && forall i :: 0 <= i < |bs| ==> r[i].bits == bs[i].bits && !r[i].used
  {
    seq(|bs|, i requires 0 <= i < |bs| => Block(bs[i].bits, false))
  }

  /** The joined stream ignores the `used` marks. */
  lemma {:induction false} FlattenUnmarked(bs: seq<Block>)
    ensures Rechunk.Flatten(Unmarked(bs)) == Rechunk.Flatten(bs)
  {
    if |bs| > 0 {
      assert Unmarked(bs)[1..] == Unmarked(bs[1..]);
      FlattenUnmarked(bs[1..]);
    }
  }

  /**
   * Splitting s into t-bit blocks and joining them into blocks of |s| bits
   * puts s, whole, in the first joined block; only padding follows.
   */
  lemma JoinedFirstBlock(s: seq<bool>, t: nat)
    requires |s| > 0 && t > 0
    ensures |Rechunk.Split(Rechunk.Flatten(Rechunk.Split(s, t)), |s|)| >= 1
    ensures Rechunk.Split(Rechunk.Flatten(Rechunk.Split(s, t)), |s|)[0].bits == s
  {
    Rechunk.FlattenSplit(s, t);
    var stream := Rechunk.Flatten(Rechunk.Split(s, t));
    var target := Rechunk.Split(stream, |s|);
    Rechunk.CeilDivBounds(|stream|, |s|);
    Rechunk.FlattenSplit(stream, |s|);
    Rechunk.FlattenLength(target, |s|);
    assert target[0].bits == Rechunk.Flatten(target)[..|s|];
  }

  /**
   * The BER the self-tests measure: the decoded blocks join into the same
   * stream as Split(s, t), so the first joined block of |s| bits is s and
   * pgt_get_ber finds no wrong bit.
   */
  lemma JoinedBerZero(s: seq<bool>, t: nat, decoded: seq<Block>)
    requires |s| > 0 && t > 0
    requires Rechunk.Flatten(decoded) == Rechunk.Flatten(Rechunk.Split(s, t))
    ensures var target := Rechunk.Split(Rechunk.Flatten(decoded), |s|);
      |target| >= 1 && |target[0].bits| == |s| && Tools.Ber(Some([Block(s, false)]), Some(target), |s|) == Tools.Num(0.0)
  {
    JoinedFirstBlock(s, t);
    var target := Rechunk.Split(Rechunk.Flatten(decoded), |s|);
    assert target[0].bits[..|s|] == s;
    assert [Block(s, false)][0].bits[..|s|] == s;
  }

  /** A single block's stream is its bits. */
  lemma SplitSingle(s: seq<bool>)
    ensures Rechunk.Flatten([Block(s, false)]) == s
  {
    assert [Block(s, false)][1..] == [];
  }

  /**
   * The first stage of both tests: pgt_blocks_to_blocks(&out, source_bits,
   * 1, size) on the single generated block, where size 0 (no FEC) keeps
   * the generated length.
   */
  method SplitStage(s: seq<bool>, size: nat) returns (count: nat, blocks: seq<Block>)
    requires |s| > 0
    ensures var t := if size == 0 then |s| else size;
      count == |blocks| > 0 && blocks == Rechunk.Split(s, t)
  {
    count, blocks := Rechunk.BlocksToBlocks(Some([Block(s, false)]), size);
    var t := if size == 0 then |s| else size;
    SplitSingle(s);
    Rechunk.CeilDivBounds(|s|, t);
  }

  /**
   * The last stage of both tests: the decoded blocks, whose stream is that
   * of Split(s, t), are joined into blocks of |s| bits and compared with
   * the generated block by pgt_get_ber.
   */
  method JoinStage(s: seq<bool>, t: nat, decoded: seq<Block>) returns (count: nat, ber: Tools.Ratio)
    requires |s| > 0 && t > 0 && |decoded| > 0 && Uniform(decoded, |decoded[0].bits|)
    requires Rechunk.Flatten(decoded) == Rechunk.Flatten(Rechunk.Split(s, t))
    ensures count > 0 && ber == Tools.Num(0.0)
  {
    var target;
    count, target := Rechunk.BlocksToBlocks(Some(decoded), |s|);
    JoinedBerZero(s, t, decoded);
    ber := Tools.Ber(Some([Block(s, false)]), Some(target), |s|);
  }

  /** pgf_encode_blocks then pgf_decode_blocks: both keep the count and the data comes back unmarked. */
  method FecStage(f: FecSchemes.Fec, a: Fec.Arrays, blocks: seq<Block>) returns (encoded: nat, decoded: nat, out: seq<Block>)
    requires Fec.GoodArrays(f, a) && |blocks| > 0 && Uniform(blocks, Fec.DataWidth(f, blocks))
    ensures encoded == decoded == |blocks| && out == Unmarked(blocks)
  {
    Fec.RoundTrip(f, a, blocks);
    var enc := Fec.EncodeBlocks(Some(blocks), FecSchemes.Id(f), a);
    var dec := Fec.DecodeBlocks(Some(enc.value.1), FecSchemes.Id(f), a);
    encoded, decoded, out := enc.value.0, dec.value.0, dec.value.1;
  }

  /**
   * pgm_modulate then pgm_demodulate with no noise in between: both keep
   * the count and, with separated table points, the blocks come back
   * unmarked.
   */
  method ModulationStage(id: nat, blocks: seq<Block>, dist: (Constellation.Point, Constellation.Point) -> real,
                         value: ModulationSchemes.Threshold -> real) returns (modulated: nat, demodulated: nat, out: seq<Block>)
    requires ModulationSchemes.FromId(id).Some? && |blocks| > 0
    requires var m := ModulationSchemes.FromId(id).value;
      && Uniform(blocks, ModulationSchemes.BlockSize(m))
      && Modulation.Separated(Constellation.Table(m), value(ModulationSchemes.Minimum(m)), dist)
    ensures modulated == demodulated == |blocks| && out == Unmarked(blocks)
  {
    var m := ModulationSchemes.FromId(id).value;
    forall i | 0 <= i < |blocks|
      ensures ToNat(blocks[i].bits) < ModulationSchemes.Volume(m)
    {
      ToNatBound(blocks[i].bits);
    }
    var signals := Modulation.Modulate(Some(blocks), id);
    var dem := Modulation.Demodulate(Some(signals.value.1), id, dist, value);
    Modulation.ZeroNoiseRoundTrip(blocks, id, dist, value, dem.value.1);
    modulated, demodulated, out := signals.value.0, dem.value.0, dem.value.1;
  }

  /**
   * pgst_fec_test for scheme f.  counts holds the block counts of the four
   * stages (split, encode, decode, join): none is zero, so the test never
   * reaches pgp_nodata, and the coding stages keep the count.  With no
   * channel in between the measured BER is 0.
   */
  method FecTest(f: FecSchemes.Fec, a: Fec.Arrays, s: seq<bool>) returns (counts: seq<nat>, ber: Tools.Ratio)
    requires Fec.GoodArrays(f, a) && |s| > 0
    ensures |counts| == 4 && forall k :: 0 <= k < 4 ==> counts[k] > 0
    ensures counts[0] == counts[1] == counts[2]
    ensures ber == Tools.Num(0.0)
  {
    var size := FecSchemes.InputBlockSize(f);
    var t := if size == 0 then |s| else size;
    var sourceCount, sourceBlocks := SplitStage(s, size);
    var encodedCount, decodedCount, decoded := FecStage(f, a, sourceBlocks);
    FlattenUnmarked(sourceBlocks);
    var targetCount;
    targetCount, ber := JoinStage(s, t, decoded);
    counts := [sourceCount, encodedCount, decodedCount, targetCount];
  }

  /**
   * pgst_modulator_test for the known scheme id.  counts holds the counts
   * of the four stages (split, modulate, demodulate, join): none is zero,
   * and the middle stages keep the count.  With no noise, and table points
   * that the distance keeps apart (see Modulation.ZeroNoiseRoundTrip), the
   * measured BER is 0.
   */
  method ModulatorTest(id: nat, s: seq<bool>, dist: (Constellation.Point, Constellation.Point) -> real,
                       value: ModulationSchemes.Threshold -> real) returns (counts: seq<nat>, ber: Tools.Ratio)
    requires ModulationSchemes.FromId(id).Some? && |s| > 0
    requires var m := ModulationSchemes.FromId(id).value;
      Modulation.Separated(Constellation.Table(m), value(ModulationSchemes.Minimum(m)), dist)
    ensures |counts| == 4 && forall k :: 0 <= k < 4 ==> counts[k] > 0
    ensures counts[0] == counts[1] == counts[2]
    ensures ber == Tools.Num(0.0)
  {
    var size := ModulationSchemes.GetBlockSize(id).value;
    var sourceCount, sourceBlocks := SplitStage(s, size);
    var modulatedCount, demodulatedCount, demodulated := ModulationStage(id, sourceBlocks, dist, value);
    FlattenUnmarked(sourceBlocks);
    var targetCount;
    targetCount, ber := JoinStage(s, size, demodulated);
    counts := [sourceCount, modulatedCount, demodulatedCount, targetCount];
  }
}
