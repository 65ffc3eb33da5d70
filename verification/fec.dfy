/**
 * The per-block switch and the block-array entry points of pegasus_fec.c
 * (lines 299-361 and 398-460): pgf_encode_block, pgf_encode_blocks,
 * pgf_decode_block and pgf_decode_blocks.  The source array is an Option,
 * None standing for a NULL pointer, and its length is the block count.
 */
module Fec {
  import opened Bits
  import opened Wrappers
  import opened Block
  import opened FecSchemes
  import Hamming
  import Crc
  import Syndromes

  /** The Hamming index arrays the coder is built with. */
  datatype Arrays = Arrays(fecBits: seq<seq<nat>>, synBits: seq<seq<nat>>)

  /** What the encoder of f reads or writes without a range check. */
  predicate EncodeFits(target: Block, f: Fec, a: Arrays)
  {
    match f
    case NoFec => true
    case Hamming74 => Hamming.IndexArray(a.fecBits, 3, 4) && |target.bits| >= 7
    case _ => Suffix(f) <= |target.bits|
  }

  /** What the decoder of f reads or writes without a range check. */
  predicate DecodeFits(target: Block, e: Block, f: Fec, a: Arrays)
  {
    match f
    case NoFec => true
    case Hamming74 => Hamming.IndexArray(a.synBits, 4, 7) && |e.bits| >= 7
    case _ => Suffix(f) <= |e.bits| && |target.bits| <= OutputBlockSize(f)
  }

  /** pgf_encode_block: dispatch on the scheme; an unknown identifier is fatal. */
  function EncodeBlock(target: Block, src: Block, id: nat, a: Arrays): (r: Result<Block>)
    requires FromId(id).Some? ==> EncodeFits(target, FromId(id).value, a)
    ensures FromId(id).None? ==> r == Fail(SwitchDefault)
    ensures r.Fail? && FromId(id).Some? ==> r.error == RangeError
    ensures r.Ok? ==> |r.value.bits| == |target.bits| && r.value.used == target.used
    ensures FromId(id) == Some(NoFec) ==>
      (r.Ok? <==> |src.bits| <= |target.bits|) && (r.Ok? ==> r.value.bits[..|src.bits|] == src.bits)
  {
    match FromId(id)
    case None => Fail(SwitchDefault)
    case Some(f) =>
      match f
      case NoFec =>
        var r := Copy(target, 0, src, 0, |src.bits|);
        assert r.Ok? ==> r.value.bits[..|src.bits|] == src.bits;
        r
      case Hamming74 => Hamming.Encode(target, src, a.fecBits)
      case _ => Crc.EncodeFor(f, target, src)
  }

  /** pgf_decode_block: dispatch on the scheme; an unknown identifier is fatal. */
  function DecodeBlock(target: Block, e: Block, id: nat, a: Arrays): (r: Result<Block>)
    requires FromId(id).Some? ==> DecodeFits(target, e, FromId(id).value, a)
    ensures FromId(id).None? ==> r == Fail(SwitchDefault)
    ensures r.Fail? && FromId(id).Some? ==> r.error == RangeError
    ensures r.Ok? ==> |r.value.bits| == |target.bits| && r.value.used == target.used
    ensures FromId(id) == Some(NoFec) ==>
      (r.Ok? <==> |e.bits| <= |target.bits|) && (r.Ok? ==> r.value.bits[..|e.bits|] == e.bits)
  {
    match FromId(id)
    case None => Fail(SwitchDefault)
    case Some(f) =>
      match f
      case NoFec =>
        var r := Copy(target, 0, e, 0, |e.bits|);
        assert r.Ok? ==> r.value.bits[..|e.bits|] == e.bits;
        r
      case Hamming74 => Hamming.Decode(target, e, a.synBits)
      case _ => Crc.DecodeFor(f, target, e)
  }

  /** The loop of pgf_encode_blocks: block i of the sources into target i. */
  function EncodeAll(targets: seq<Block>, srcs: seq<Block>, id: nat, a: Arrays): (r: Result<seq<Block>>)
    requires |targets| == |srcs|
    requires forall i :: 0 <= i < |targets| ==> FromId(id).Some? ==> EncodeFits(targets[i], FromId(id).value, a)
    ensures r.Ok? <==> forall i :: 0 <= i < |srcs| ==> EncodeBlock(targets[i], srcs[i], id, a).Ok?
    ensures r.Ok? ==> |r.value| == |srcs| && forall i :: 0 <= i < |srcs| ==> EncodeBlock(targets[i], srcs[i], id, a) == Ok(r.value[i])
    ensures r.Fail? ==> exists i :: 0 <= i < |srcs| && EncodeBlock(targets[i], srcs[i], id, a) == Fail(r.error)
  {
    if |srcs| == 0 then Ok([])
    else
      var b :- EncodeBlock(targets[0], srcs[0], id, a);
      var rest :- EncodeAll(targets[1..], srcs[1..], id, a);
      Ok([b] + rest)
  }

  /** The loop of pgf_decode_blocks: block i of the received words into target i. */
  function DecodeAll(targets: seq<Block>, es: seq<Block>, id: nat, a: Arrays): (r: Result<seq<Block>>)
    requires |targets| == |es|
    requires forall i :: 0 <= i < |targets| ==> FromId(id).Some? ==> DecodeFits(targets[i], es[i], FromId(id).value, a)
    ensures r.Ok? <==> forall i :: 0 <= i < |es| ==> DecodeBlock(targets[i], es[i], id, a).Ok?
    ensures r.Ok? ==> |r.value| == |es| && forall i :: 0 <= i < |es| ==> DecodeBlock(targets[i], es[i], id, a) == Ok(r.value[i])
    ensures r.Fail? ==> exists i :: 0 <= i < |es| && DecodeBlock(targets[i], es[i], id, a) == Fail(r.error)
  {
    if |es| == 0 then Ok([])
    else
      var b :- DecodeBlock(targets[0], es[0], id, a);
      var rest :- DecodeAll(targets[1..], es[1..], id, a);
      Ok([b] + rest)
  }

  /**
   * pgf_encode_blocks: NULL sources give count 0; otherwise one fresh block
   * per source block, as wide as the first source block for NoFec and as
   * the scheme's output block otherwise, each encoded in turn.
   */
  function EncodeBlocks(source: Option<seq<Block>>, id: nat, a: Arrays): (r: Result<(nat, seq<Block>)>)
    requires source.Some? && id == Id(NoFec) ==> |source.value| >= 1
    requires FromId(id) == Some(Hamming74) ==> Hamming.IndexArray(a.fecBits, 3, 4)
    ensures source.None? ==> r == Ok((0, []))
    ensures source.Some? && FromId(id).None? ==> r == Fail(SwitchDefault)
    ensures r.Ok? && source.Some? ==>
      && r.value.0 == |source.value| && |r.value.1| == |source.value|
      && forall i :: 0 <= i < |r.value.1| ==> !r.value.1[i].used
    ensures r.Ok? && source.Some? && FromId(id).Some? && id != Id(NoFec) ==>
      Uniform(r.value.1, OutputBlockSize(FromId(id).value))
  {
    match source
    case None => Ok((0, []))
    case Some(src) =>
      var size :- if id == Id(NoFec) then Ok(|src[0].bits|) else OutputSize(id);
      var blocks :- EncodeEach(src, size, id, a);
      Ok((|src|, blocks))
  }

  /** The loop of pgf_encode_blocks over fresh targets of one width. */
  function EncodeEach(src: seq<Block>, size: nat, id: nat, a: Arrays): (r: Result<seq<Block>>)
    requires FromId(id).Some? ==> EncodeFits(CreateBlock(size), FromId(id).value, a)
    ensures r.Ok? ==> |r.value| == |src| && Uniform(r.value, size) && forall i :: 0 <= i < |src| ==> !r.value[i].used
  {
    EncodeAll(CreateBlocks(|src|, size), src, id, a)
  }

  /**
   * pgf_decode_blocks: NULL input gives count 0; otherwise one fresh block
   * per received block, as wide as the first received block for NoFec and
   * as the scheme's input block otherwise, each decoded in turn.
   */
  function DecodeBlocks(encoded: Option<seq<Block>>, id: nat, a: Arrays): (r: Result<(nat, seq<Block>)>)
    requires encoded.Some? && id == Id(NoFec) ==> |encoded.value| >= 1
    requires FromId(id) == Some(Hamming74) ==>
      Hamming.IndexArray(a.synBits, 4, 7) && (encoded.Some? ==> forall i :: 0 <= i < |encoded.value| ==> |encoded.value[i].bits| >= 7)
    requires encoded.Some? && FromId(id).Some? && IsCrc(FromId(id).value) ==>
      forall i :: 0 <= i < |encoded.value| ==> Suffix(FromId(id).value) <= |encoded.value[i].bits|
    ensures encoded.None? ==> r == Ok((0, []))
    ensures encoded.Some? && FromId(id).None? ==> r == Fail(SwitchDefault)
    ensures r.Ok? && encoded.Some? ==>
      && r.value.0 == |encoded.value| && |r.value.1| == |encoded.value|
      && forall i :: 0 <= i < |r.value.1| ==> !r.value.1[i].used
    ensures r.Ok? && encoded.Some? && FromId(id).Some? && id != Id(NoFec) ==>
      Uniform(r.value.1, InputBlockSize(FromId(id).value))
  {
    match encoded
    case None => Ok((0, []))
    case Some(es) =>
      var size :- if id == Id(NoFec) then Ok(|es[0].bits|) else InputSize(id);
      var blocks :- DecodeEach(es, size, id, a);
      Ok((|es|, blocks))
  }

  /** The loop of pgf_decode_blocks over fresh targets of one width. */
  function DecodeEach(es: seq<Block>, size: nat, id: nat, a: Arrays): (r: Result<seq<Block>>)
    requires forall i :: 0 <= i < |es| ==> FromId(id).Some? ==> DecodeFits(CreateBlock(size), es[i], FromId(id).value, a)
    ensures r.Ok? ==> |r.value| == |es| && Uniform(r.value, size) && forall i :: 0 <= i < |es| ==> !r.value[i].used
  {
    assert CreateBlock(size) == Block(Zeros(size), false);
    DecodeAll(CreateBlocks(|es|, size), es, id, a)
  }

  // ---------------------------------------------------------------------
  // Round trips

  /** The width of the blocks a scheme expects at its input. */
  function DataWidth(f: Fec, src: seq<Block>): nat
    requires f == NoFec ==> |src| >= 1
  {
    if f == NoFec then |src[0].bits| else InputBlockSize(f)
  }

  /** The arrays a scheme needs: single-error-correcting ones for Hamming. */
  ghost predicate GoodArrays(f: Fec, a: Arrays)
  {
    f == Hamming74 ==> Hamming.CorrectsSingleErrors(a.fecBits, a.synBits)
  }

  /** What BlockRoundTrip states for scheme f, data block s and block widths n (encoded) and k (decoded). */
  predicate BlockRestored(f: Fec, a: Arrays, s: Block, n: nat, k: nat)
  {
    && EncodeFits(CreateBlock(n), f, a)
    && EncodeBlock(CreateBlock(n), s, Id(f), a).Ok?
    && var x := EncodeBlock(CreateBlock(n), s, Id(f), a).value;
       && |x.bits| == n
       && DecodeFits(CreateBlock(k), x, f, a)
       && DecodeBlock(CreateBlock(k), x, Id(f), a) == Ok(Block(s.bits, false))
  }

  /** One block through the encoder and back, with no channel errors. */
  lemma BlockRoundTrip(f: Fec, a: Arrays, s: Block)
    requires GoodArrays(f, a) && (f != NoFec ==> |s.bits| == InputBlockSize(f))
    ensures var n := if f == NoFec then |s.bits| else OutputBlockSize(f);
      var k := if f == NoFec then |s.bits| else InputBlockSize(f);
      BlockRestored(f, a, s, n, k)
  {
    match f
    case NoFec => CopyRoundTrip(a, s);
    case Hamming74 => HammingBlockRoundTrip(a, s);
    case _ => CrcBlockRoundTrip(f, a, s);
  }

  /** Without a code the block is copied out and copied back. */
  lemma CopyRoundTrip(a: Arrays, s: Block)
    ensures BlockRestored(NoFec, a, s, |s.bits|, |s.bits|)
  {
    IdsDistinct(NoFec, NoFec);
    var x := EncodeBlock(CreateBlock(|s.bits|), s, Id(NoFec), a).value;
    assert x.bits == s.bits;
    var y := DecodeBlock(CreateBlock(|s.bits|), x, Id(NoFec), a).value;
    assert y.bits == s.bits;
  }

  /** A Hamming block comes back whenever the arrays correct single errors. */
  lemma HammingBlockRoundTrip(a: Arrays, s: Block)
    requires GoodArrays(Hamming74, a) && |s.bits| == 4
    ensures BlockRestored(Hamming74, a, s, 7, 4)
  {
    Hamming.RoundTrip(a.fecBits, a.synBits, s, 0);
    assert s.bits[..4] == s.bits;
    var x := Hamming.Encode(CreateBlock(7), s, a.fecBits).value;
    HammingDispatch(a, CreateBlock(7), s, CreateBlock(4), x);
  }

  /** For Hamming74 the switches call the Hamming coder. */
  lemma HammingDispatch(a: Arrays, target: Block, src: Block, out: Block, e: Block)
    requires EncodeFits(target, Hamming74, a) && DecodeFits(out, e, Hamming74, a)
    ensures EncodeBlock(target, src, Id(Hamming74), a) == Hamming.Encode(target, src, a.fecBits)
    ensures DecodeBlock(out, e, Id(Hamming74), a) == Hamming.Decode(out, e, a.synBits)
  {
    IdsDistinct(Hamming74, Hamming74);
  }

  /** For a cyclic or BCH scheme the switches call the syndrome coder with the scheme's polynomial and table. */
  lemma CrcDispatch(f: Fec, a: Arrays, target: Block, src: Block, out: Block, e: Block)
    requires IsCrc(f) && EncodeFits(target, f, a) && DecodeFits(out, e, f, a)
    ensures EncodeBlock(target, src, Id(f), a) == Crc.EncodeFor(f, target, src)
    ensures DecodeBlock(out, e, Id(f), a) == Crc.DecodeFor(f, out, e)
  {
    IdsDistinct(f, f);
  }

  /** A cyclic or BCH block comes back: encoding gives a codeword, and a clean codeword decodes to its data. */
  lemma CrcBlockRoundTrip(f: Fec, a: Arrays, s: Block)
    requires IsCrc(f) && |s.bits| == InputBlockSize(f)
    ensures BlockRestored(f, a, s, OutputBlockSize(f), InputBlockSize(f))
  {
    PolynomeBits(f);
    var k := InputBlockSize(f);
    var x := Block(Crc.Codeword(s.bits, Polynome(f).bits), false);
    Crc.SchemeEncode(f, s);
    Crc.SchemeDecode(f, s.bits);
    CrcDispatch(f, a, CreateBlock(OutputBlockSize(f)), s, CreateBlock(k), x);
  }

  /** The width of the blocks a scheme produces from such an array. */
  function CodeWidth(f: Fec, src: seq<Block>): nat
    requires f == NoFec ==> |src| >= 1
  {
    if f == NoFec then |src[0].bits| else OutputBlockSize(f)
  }

  /** What each encoded block must satisfy for the decoder to restore source block i. */
  predicate Restores(f: Fec, a: Arrays, src: seq<Block>, es: seq<Block>)
    requires f == NoFec ==> |src| >= 1
  {
    && |es| == |src|
    && forall i :: 0 <= i < |es| ==>
         && |es[i].bits| == CodeWidth(f, src)
         && DecodeFits(CreateBlock(DataWidth(f, src)), es[i], f, a)
         && DecodeBlock(CreateBlock(DataWidth(f, src)), es[i], Id(f), a) == Ok(Block(src[i].bits, false))
  }

  /** Encoding a uniform array succeeds, block by block, with blocks the decoder restores. */
  lemma EncodeStage(f: Fec, a: Arrays, src: seq<Block>) returns (es: seq<Block>)
    requires GoodArrays(f, a)
    requires f == NoFec ==> |src| >= 1
    requires Uniform(src, DataWidth(f, src))
    ensures EncodeBlocks(Some(src), Id(f), a) == Ok((|src|, es))
    ensures Restores(f, a, src, es)
  {
    IdsDistinct(f, f);
    AllRestored(f, a, src);
    assert EncodeFits(CreateBlock(CodeWidth(f, src)), f, a);
    var targets := CreateBlocks(|src|, CodeWidth(f, src));
    es := EncodeRestored(f, a, src, targets);
  }

  /** Every block of a uniform array makes the round trip on its own. */
  lemma AllRestored(f: Fec, a: Arrays, src: seq<Block>)
    requires GoodArrays(f, a)
    requires f == NoFec ==> |src| >= 1
    requires Uniform(src, DataWidth(f, src))
    ensures forall i :: 0 <= i < |src| ==> BlockRestored(f, a, src[i], CodeWidth(f, src), DataWidth(f, src))
  {
    forall i | 0 <= i < |src|
      ensures BlockRestored(f, a, src[i], CodeWidth(f, src), DataWidth(f, src))
    {
      BlockRoundTrip(f, a, src[i]);
    }
  }

  /** The targets pgf_encode_blocks creates, when every block makes the round trip, encode to blocks the decoder restores. */
  lemma EncodeRestored(f: Fec, a: Arrays, src: seq<Block>, targets: seq<Block>) returns (es: seq<Block>)
    requires (f == NoFec ==> |src| >= 1) && FromId(Id(f)) == Some(f)
    requires EncodeFits(CreateBlock(CodeWidth(f, src)), f, a)
    requires targets == CreateBlocks(|src|, CodeWidth(f, src))
    requires forall i :: 0 <= i < |src| ==> BlockRestored(f, a, src[i], CodeWidth(f, src), DataWidth(f, src))
    ensures EncodeBlocks(Some(src), Id(f), a) == Ok((|src|, es))
    ensures Restores(f, a, src, es)
  {
    var n := CodeWidth(f, src);
    forall i | 0 <= i < |src|
      ensures targets[i] == CreateBlock(n) && BlockRestored(f, a, src[i], n, DataWidth(f, src))
    {
    }
    es := EncodeAllRestored(f, a, src, targets, n);
    EncodeBlocksOk(f, a, src, es);
  }

  /** The loop of pgf_encode_blocks over targets of one fresh width n succeeds with blocks the decoder restores. */
  lemma EncodeAllRestored(f: Fec, a: Arrays, src: seq<Block>, targets: seq<Block>, n: nat) returns (es: seq<Block>)
    requires f == NoFec ==> |src| >= 1
    requires FromId(Id(f)) == Some(f) && n == CodeWidth(f, src) && EncodeFits(CreateBlock(n), f, a)
    requires |targets| == |src|
    requires forall i :: 0 <= i < |src| ==> targets[i] == CreateBlock(n) && BlockRestored(f, a, src[i], n, DataWidth(f, src))
    ensures EncodeAll(targets, src, Id(f), a) == Ok(es)
    ensures Restores(f, a, src, es)
  {
    var enc := EncodeAll(targets, src, Id(f), a);
    assert enc.Ok?;
    es := enc.value;
  }

  /** pgf_encode_blocks returns the count and the blocks its loop produced. */
  lemma EncodeBlocksOk(f: Fec, a: Arrays, src: seq<Block>, es: seq<Block>)
    requires (f == NoFec ==> |src| >= 1) && FromId(Id(f)) == Some(f)
    requires EncodeFits(CreateBlock(CodeWidth(f, src)), f, a)
    requires EncodeAll(CreateBlocks(|src|, CodeWidth(f, src)), src, Id(f), a) == Ok(es)
    ensures EncodeBlocks(Some(src), Id(f), a) == Ok((|src|, es))
  {
  }

  /** Decoding blocks the decoder restores one by one restores the whole array. */
  lemma DecodeStage(f: Fec, a: Arrays, src: seq<Block>, es: seq<Block>)
    requires GoodArrays(f, a)
    requires f == NoFec ==> |src| >= 1
    requires Restores(f, a, src, es)
    requires f != NoFec ==> DataWidth(f, src) == InputBlockSize(f)
    requires f == NoFec ==> CodeWidth(f, src) == DataWidth(f, src)
    ensures DecodeBlocks(Some(es), Id(f), a)
         == Ok((|src|, seq(|src|, i requires 0 <= i < |src| => Block(src[i].bits, false))))
  {
    IdsDistinct(f, f);
    IdsDistinct(f, NoFec);
    var k := DataWidth(f, src);
    var outs := CreateBlocks(|es|, k);
    var data := DecodeAllRestored(f, a, src, es, outs, k);
    assert DecodeEach(es, k, Id(f), a) == Ok(data);
  }

  /** The loop of pgf_decode_blocks over fresh targets of width k gives back every source block, unmarked. */
  lemma DecodeAllRestored(f: Fec, a: Arrays, src: seq<Block>, es: seq<Block>, outs: seq<Block>, k: nat) returns (data: seq<Block>)
    requires f == NoFec ==> |src| >= 1
    requires FromId(Id(f)) == Some(f) && k == DataWidth(f, src)
    requires Restores(f, a, src, es)
    requires outs == CreateBlocks(|es|, k)
    ensures data == seq(|src|, i requires 0 <= i < |src| => Block(src[i].bits, false))
    ensures DecodeAll(outs, es, Id(f), a) == Ok(data)
  {
    var dec := DecodeAll(outs, es, Id(f), a);
    assert dec.Ok?;
    data := dec.value;
    assert data == seq(|src|, i requires 0 <= i < |src| => Block(src[i].bits, false));
  }

  /**
   * With no channel errors, decoding the encoded array gives back every
   * source block, unmarked, and the same count.
   */
  lemma RoundTrip(f: Fec, a: Arrays, src: seq<Block>)
    requires GoodArrays(f, a)
    requires f == NoFec ==> |src| >= 1
    requires Uniform(src, DataWidth(f, src))
    ensures EncodeBlocks(Some(src), Id(f), a).Ok?
    ensures var enc := EncodeBlocks(Some(src), Id(f), a).value.1;
      DecodeBlocks(Some(enc), Id(f), a) == Ok((|src|, seq(|src|, i requires 0 <= i < |src| => Block(src[i].bits, false))))
  {
    var es := EncodeStage(f, a, src);
    DecodeStage(f, a, src, es);
  }
}
