/**
 * The bit sources of pegasus_source.c.  Both generators cut the output
 * buffer into chunks of a fixed width and write one codeword into each:
 * the random source 64-bit words drawn from the xorshift generator, the
 * predefined source the indices 0, 1, ..., volume - 1, 0, 1, ... of the
 * modulation's constellation.  A last, partial chunk receives the leading
 * (most significant) bits of the next codeword.
 */
module Source {
  import opened Bits
  import opened Wrappers
  import opened Block
  import ModulationSchemes
  import Random
  import Rechunk

  /** PGS_RANDOM and PGS_PREDEFINED. */
  const RandomSource: nat := 1
  const PredefinedSource: nat := 2

  /** pgs_source_to_string: an unknown source is fatal. */
  function Name(source: nat): (r: Result<string>)
    ensures r.Fail? <==> source != RandomSource && source != PredefinedSource
    ensures r.Fail? ==> r.error == SwitchDefault
  {
    if source == RandomSource then Ok("Random bits sequence")
    else if source == PredefinedSource then Ok("Predefined bits sequence")
    else Fail(SwitchDefault)
  }

  /** The two sources are reported under different names. */
  lemma NamesDistinct()
    ensures Name(RandomSource).Ok? && Name(PredefinedSource).Ok?
    ensures Name(RandomSource).value != Name(PredefinedSource).value
  {
    assert Name(RandomSource).value[0] == 'R';
    assert Name(PredefinedSource).value[0] == 'P';
  }

  // ---------------------------------------------------------------------
  // The chunked layout both generators produce

  /** j * w, by repeated addition: the offset just after the first j chunks. */
  function Offset(j: nat, w: nat): nat
  {
    if j == 0 then 0 else Offset(j - 1, w) + w
  }

  lemma {:induction false} OffsetIsProduct(j: nat, w: nat)
    ensures Offset(j, w) == j * w
  {
    if j > 0 {
      OffsetIsProduct(j - 1, w);
    }
  }

  /** Offsets grow with the chunk count, strictly for a positive width. */
  lemma {:induction false} OffsetMonotone(a: nat, b: nat, w: nat)
    requires a <= b
    ensures Offset(a, w) <= Offset(b, w)
    ensures w >= 1 && a < b ==> Offset(a, w) < Offset(b, w)
  {
    if a < b {
      OffsetMonotone(a, b - 1, w);
    }
  }

  /** The whole chunks of `amount` bits end where the remainder begins. */
  lemma WholeChunks(amount: nat, w: nat)
    requires w >= 1
    ensures Offset(amount / w, w) == amount - amount % w
  {
    OffsetIsProduct(amount / w, w);
  }

  /** The first j chunks: codeword code(i) written big-endian in w bits, for i < j. */
  function Chunks(w: nat, code: nat -> nat, j: nat): (s: seq<bool>)
    ensures |s| == Offset(j, w)
  {
    if j == 0 then [] else Chunks(w, code, j - 1) + FromNat(w, code(j - 1))
  }

  /** `amount` bits: every whole chunk, then the leading bits of the next codeword. */
  function Chunked(w: nat, code: nat -> nat, amount: nat): (s: seq<bool>)
    requires w >= 1
    ensures |s| == amount
  {
    WholeChunks(amount, w);
    Chunks(w, code, amount / w) + FromNat(w, code(amount / w))[..amount % w]
  }

  /** Bit k of the whole chunks is bit k mod w of codeword k div w. */
  lemma {:induction false} ChunksBit(w: nat, code: nat -> nat, j: nat, k: nat)
    requires w >= 1 && k < Offset(j, w)
    ensures Chunks(w, code, j)[k] == FromNat(w, code(k / w))[k % w]
  {
    var prev := Chunks(w, code, j - 1);
    if k < |prev| {
      ChunksBit(w, code, j - 1, k);
    } else {
      OffsetIsProduct(j - 1, w);
      DivModUnique(k, w, j - 1, k - |prev|);
    }
  }

  /** The closed form of the layout: bit k is bit k mod w of codeword k div w, the last partial chunk included. */
  lemma ChunkedBit(w: nat, code: nat -> nat, amount: nat, k: nat)
    requires w >= 1 && k < amount
    ensures Chunked(w, code, amount)[k] == FromNat(w, code(k / w))[k % w]
  {
    var full := amount / w;
    var whole := Chunks(w, code, full);
    if k < |whole| {
      ChunksBit(w, code, full, k);
    } else {
      OffsetIsProduct(full, w);
      DivModUnique(k, w, full, k - |whole|);
    }
  }

  /** Chunk j of a bit string cut into w-bit chunks. */
  function Chunk(s: seq<bool>, w: nat, j: nat): seq<bool>
    requires j * w + w <= |s|
  {
    s[j * w..j * w + w]
  }

  /** A chunk that fits in the output holds exactly its codeword. */
  lemma ChunkedWord(w: nat, code: nat -> nat, amount: nat, j: nat)
    requires w >= 1 && j * w + w <= amount
    ensures Chunk(Chunked(w, code, amount), w, j) == FromNat(w, code(j))
  {
    var s := Chunked(w, code, amount);
    var start := j * w;
    var c := FromNat(w, code(j));
    forall i | 0 <= i < w
      ensures s[start..start + w][i] == c[i]
    {
      ChunkedBit(w, code, amount, start + i);
      ChunkPosition(w, j, i);
    }
  }

  /** Position i of chunk j sits at quotient j and remainder i. */
  lemma ChunkPosition(w: nat, j: nat, i: nat)
    requires i < w
    ensures (j * w + i) / w == j && (j * w + i) % w == i
  {
    DivModUnique(j * w + i, w, j, i);
  }


  // ---------------------------------------------------------------------
  // Writing one chunk

  /** The buffer once the first j chunks have been written over it. */
  function Written(buffer: Block, w: nat, code: nat -> nat, j: nat): (r: Block)
    requires Offset(j, w) <= |buffer.bits|
    ensures |r.bits| == |buffer.bits| && r.used == buffer.used
  {
    buffer.(bits := Chunks(w, code, j) + buffer.bits[Offset(j, w)..])
  }

  /** pgb_copy of the first n bits of a chunk right after the part already written. */
  lemma CopyAfter(written: seq<bool>, rest: seq<bool>, used: bool, chunk: Block, n: nat)
    requires n <= |rest| && n <= |chunk.bits|
    ensures Copy(Block(written + rest, used), |written|, chunk, 0, n)
         == Ok(Block(written + chunk.bits[..n] + rest[n..], used))
  {
    var dst := written + rest;
    assert dst[..|written|] == written;
    assert dst[|written| + n..] == rest[n..];
  }

  /** Copying codeword j into place after j chunks gives j + 1 chunks. */
  lemma ChunkWritten(buffer: Block, w: nat, code: nat -> nat, j: nat, current: Block)
    requires Offset(j + 1, w) <= |buffer.bits| && current.bits == FromNat(w, code(j))
    ensures Copy(Written(buffer, w, code, j), Offset(j, w), current, 0, w) == Ok(Written(buffer, w, code, j + 1))
  {
    var rest := buffer.bits[Offset(j, w)..];
    CopyAfter(Chunks(w, code, j), rest, buffer.used, current, w);
    assert current.bits[..w] == FromNat(w, code(j));
    assert rest[w..] == buffer.bits[Offset(j + 1, w)..];
  }

  /** Copying the leading bits of the next codeword into the tail completes the layout. */
  lemma LastChunkWritten(buffer: Block, w: nat, code: nat -> nat, current: Block)
    requires w >= 1 && |buffer.bits| % w > 0
    requires current.bits == FromNat(w, code(|buffer.bits| / w))
    ensures var full := |buffer.bits| / w;
      Offset(full, w) <= |buffer.bits| &&
      Copy(Written(buffer, w, code, full), Offset(full, w), current, 0, |buffer.bits| % w)
        == Ok(buffer.(bits := Chunked(w, code, |buffer.bits|)))
  {
    var amount := |buffer.bits|;
    var full := amount / w;
    WholeChunks(amount, w);
    var rest := buffer.bits[Offset(full, w)..];
    CopyAfter(Chunks(w, code, full), rest, buffer.used, current, amount % w);
    assert rest[amount % w..] == [];
    assert Chunks(w, code, full) + current.bits[..amount % w] + [] == Chunked(w, code, amount);
  }

  /** When the chunks fill the buffer exactly, writing all of them completes the layout. */
  lemma AllChunksWritten(buffer: Block, w: nat, code: nat -> nat)
    requires w >= 1 && |buffer.bits| % w == 0
    ensures Offset(|buffer.bits| / w, w) <= |buffer.bits|
    ensures Written(buffer, w, code, |buffer.bits| / w) == buffer.(bits := Chunked(w, code, |buffer.bits|))
  {
    var amount := |buffer.bits|;
    WholeChunks(amount, w);
    assert buffer.bits[Offset(amount / w, w)..] == [];
    assert FromNat(w, code(amount / w))[..amount % w] == [];
  }

  /** The wrap-around of current_index: one more, reset to 0 on reaching the volume. */
  lemma NextIndex(j: nat, volume: nat)
    requires volume >= 1
    ensures (j + 1) % volume == (if j % volume + 1 >= volume then 0 else j % volume + 1)
  {
    if j % volume + 1 >= volume {
      DivModUnique(j + 1, volume, j / volume + 1, 0);
    } else {
      DivModUnique(j + 1, volume, j / volume, j % volume + 1);
    }
  }

  // ---------------------------------------------------------------------
  // pgs_generate_predefined

  /** The predefined codewords: the constellation indices in order, wrapping at the volume. */
  function Sequential(volume: nat): nat -> nat
    requires volume >= 1
  {
    (j: nat) => j % volume
  }

  /** What the predefined source writes for a scheme: chunk j holds j mod volume in block-size bits. */
  function PredefinedBits(m: ModulationSchemes.Scheme, amount: nat): (s: seq<bool>)
    ensures |s| == amount
  {
    Chunked(ModulationSchemes.BlockSize(m), Sequential(ModulationSchemes.Volume(m)), amount)
  }

  /** Every whole chunk of the predefined sequence reads back as its position modulo the volume. */
  lemma PredefinedChunk(m: ModulationSchemes.Scheme, amount: nat, j: nat)
    requires j * ModulationSchemes.BlockSize(m) + ModulationSchemes.BlockSize(m) <= amount
    ensures var w := ModulationSchemes.BlockSize(m);
      ToNat(Chunk(PredefinedBits(m, amount), w, j)) == j % Pow2(w)
  {
    SequentialChunk(ModulationSchemes.BlockSize(m), amount, j);
  }

  lemma SequentialChunk(w: nat, amount: nat, j: nat)
    requires w >= 1 && j * w + w <= amount
    ensures ToNat(Chunk(Chunked(w, Sequential(Pow2(w)), amount), w, j)) == j % Pow2(w)
  {
    var v := j % Pow2(w);
    ChunkedWord(w, Sequential(Pow2(w)), amount, j);
    ToNatFromNat(w, v);
    DivModUnique(v, Pow2(w), 0, v);
  }

  /** pgb_ull_to_block(current, v) for a v that fits the block: the block becomes v in |current| bits. */
  function Encoded(current: Block, v: nat): (r: Block)
    requires |current.bits| <= UllBits && v < Pow2(|current.bits|)
    ensures r == current.(bits := FromNat(|current.bits|, v))
  {
    Pow2Monotone(|current.bits|, UllBits);
    UllToBlock(current, v)
  }

  /**
   * pgs_generate_predefined: the block size is looked up first (fatal for
   * an unknown scheme), then the buffer is filled by FillSequential.
   */
  method GeneratePredefined(buffer: Block, id: nat) returns (r: Result<Block>)
    ensures r.Fail? <==> ModulationSchemes.FromId(id).None?
    ensures r.Fail? ==> r.error == SwitchDefault
    ensures r.Ok? ==> r.value == buffer.(bits := PredefinedBits(ModulationSchemes.FromId(id).value, |buffer.bits|))
  {
    var size := ModulationSchemes.GetBlockSize(id);
    if size.Fail? {
      return Fail(SwitchDefault);
    }
    var m := ModulationSchemes.FromId(id).value;
    var out := FillSequential(buffer, size.value, ModulationSchemes.Volume(m));
    return Ok(out);
  }

  /** One pass of the loop of pgs_generate_predefined: index j mod volume goes into chunk j. */
  method NextSequential(buffer: Block, w: nat, volume: nat, out: Block, current: Block, currentIndex: nat, i: nat, ghost j: nat)
    returns (out': Block, current': Block, currentIndex': nat)
    requires 1 <= w <= UllBits && volume == Pow2(w) && |current.bits| == w
    requires i == Offset(j, w) && Offset(j + 1, w) <= |buffer.bits| && currentIndex == j % volume
    requires out == Written(buffer, w, Sequential(volume), j)
    ensures out' == Written(buffer, w, Sequential(volume), j + 1)
    ensures |current'.bits| == w && currentIndex' == (j + 1) % volume
  {
    current' := Encoded(current, currentIndex);
    ChunkWritten(buffer, w, Sequential(volume), j, current');
    out' := Copy(out, i, current', 0, w).value;
    NextIndex(j, volume);
    currentIndex' := currentIndex + 1;
    if currentIndex' >= volume {
      currentIndex' := 0;
    }
  }

  /**
   * The loop of pgs_generate_predefined: whole chunks are written while
   * current_index counts up and wraps at the volume, then a partial chunk
   * takes the leading bits of the next index.  Every bit of the buffer is
   * written.
   */
  method FillSequential(buffer: Block, w: nat, volume: nat) returns (out: Block)
    requires 1 <= w <= UllBits && volume == Pow2(w)
    ensures out == buffer.(bits := Chunked(w, Sequential(volume), |buffer.bits|))
  {
    var amount := |buffer.bits|;
    var extra := amount % w;
    ghost var full := amount / w;
    WholeChunks(amount, w);
    var currentIndex := 0;
    var current := CreateBlock(w);
    out := buffer;
    var i := 0;
    ghost var j := 0;
    while i < amount - extra
      invariant j <= full && i == Offset(j, w) && i <= amount - extra && currentIndex == j % volume
      invariant |current.bits| == w
      invariant out == Written(buffer, w, Sequential(volume), j)
    {
      OffsetMonotone(j, full, w);
      OffsetMonotone(j + 1, full, w);
      out, current, currentIndex := NextSequential(buffer, w, volume, out, current, currentIndex, i, j);
      i := i + w;
      j := j + 1;
    }
    OffsetMonotone(j, full, w);
    out := LastSequential(buffer, w, volume, out, current, currentIndex, j);
  }

  /** The tail of pgs_generate_predefined: a partial chunk takes the leading bits of the next index. */
  method LastSequential(buffer: Block, w: nat, volume: nat, out: Block, current: Block, currentIndex: nat, ghost j: nat)
    returns (out': Block)
    requires 1 <= w <= UllBits && volume == Pow2(w) && |current.bits| == w && j == |buffer.bits| / w
    requires Offset(j, w) <= |buffer.bits| && currentIndex == j % volume
    requires out == Written(buffer, w, Sequential(volume), j)
    ensures out' == buffer.(bits := Chunked(w, Sequential(volume), |buffer.bits|))
  {
    var amount := |buffer.bits|;
    var extra := amount % w;
    if extra > 0 {
      WholeChunks(amount, w);
      var current' := Encoded(current, currentIndex);
      LastChunkWritten(buffer, w, Sequential(volume), current');
      out' := Copy(out, amount - extra, current', 0, extra).value;
    } else {
      AllChunksWritten(buffer, w, Sequential(volume));
      out' := out;
    }
  }

  // ---------------------------------------------------------------------
  // pgs_generate_random

  /** The random codewords: chunk j holds the (j + 1)-th word drawn from the seed. */
  function Draws(seed: Random.Word): nat -> nat
  {
    (j: nat) => Draw(seed, j)
  }

  /** The value of the (j + 1)-th word drawn from `seed`. */
  function Draw(seed: Random.Word, j: nat): nat
  {
    ToNat(Random.Iterate(seed, j + 1))
  }

  /** What the random source writes from slot 0's state `seed`. */
  function RandomBits(seed: Random.Word, amount: nat): (s: seq<bool>)
    ensures |s| == amount
  {
    Chunked(UllBits, Draws(seed), amount)
  }

  /** pgb_ull_to_block of a drawn word into a fresh 64-bit block: the block holds the word's bits. */
  function WordBlock(x: Random.Word): (r: Block)
    ensures r == Block(x, false)
  {
    ToNatBound(x);
    FromNatToNat(x);
    UllToBlock(CreateBlock(UllBits), ToNat(x))
  }

  /** One call of pgr_get_u64 and pgb_ull_to_block: the (j + 1)-th word drawn from slot 0 becomes codeword j. */
  method DrawWord(ghost seed: Random.Word, seeds: seq<Random.Word>, ghost j: nat)
    returns (current: Block, seeds': seq<Random.Word>)
    requires |seeds| >= 1 && seeds[0] == Random.Iterate(seed, j)
    ensures current == Block(FromNat(UllBits, Draws(seed)(j)), false)
    ensures seeds' == seeds[0 := Random.Iterate(seed, j + 1)]
  {
    var drawn := Random.GetU64(seeds, 0);
    seeds' := drawn.0;
    ghost var word := Random.Iterate(seed, j + 1);
    assert drawn.1 == word;
    current := WordBlock(drawn.1);
    assert |word| == UllBits;
    FromNatToNat(word);
    assert Draw(seed, j) == ToNat(word);
    assert Draws(seed)(j) == Draw(seed, j);
    assert current.bits == FromNat(UllBits, ToNat(word));
  }

  /** One pass of the loop of pgs_generate_random: the (j + 1)-th word drawn goes into chunk j. */
  method NextRandom(buffer: Block, ghost origin: seq<Random.Word>, out: Block, seeds: seq<Random.Word>, i: nat, ghost j: nat)
    returns (out': Block, seeds': seq<Random.Word>)
    requires |origin| >= 1 && seeds == origin[0 := Random.Iterate(origin[0], j)]
    requires i == Offset(j, UllBits) && Offset(j + 1, UllBits) <= |buffer.bits|
    requires out == Written(buffer, UllBits, Draws(origin[0]), j)
    ensures out' == Written(buffer, UllBits, Draws(origin[0]), j + 1)
    ensures seeds' == origin[0 := Random.Iterate(origin[0], j + 1)]
  {
    var current;
    current, seeds' := DrawWord(origin[0], seeds, j);
    UpdateTwice(origin, 0, Random.Iterate(origin[0], j), Random.Iterate(origin[0], j + 1));
    ChunkWritten(buffer, UllBits, Draws(origin[0]), j, current);
    out' := Copy(out, i, current, 0, UllBits).value;
  }

  /**
   * The tail of pgs_generate_random: when the buffer does not end on a word
   * boundary, one more word is drawn and its leading bits fill the partial
   * chunk; otherwise nothing is left to do.
   */
  method LastRandom(buffer: Block, ghost seed: Random.Word, out: Block, seeds: seq<Random.Word>)
    returns (out': Block, seeds': seq<Random.Word>)
    requires |seeds| >= 1 && seeds[0] == Random.Iterate(seed, |buffer.bits| / UllBits)
    requires Offset(|buffer.bits| / UllBits, UllBits) <= |buffer.bits|
    requires out == Written(buffer, UllBits, Draws(seed), |buffer.bits| / UllBits)
    ensures out' == buffer.(bits := RandomBits(seed, |buffer.bits|))
    ensures seeds' == seeds[0 := Random.Iterate(seed, Rechunk.CeilDiv(|buffer.bits|, UllBits))]
  {
    var amount := |buffer.bits|;
    var extra := amount % UllBits;
    if extra > 0 {
      WholeChunks(amount, UllBits);
      var current;
      current, seeds' := DrawWord(seed, seeds, amount / UllBits);
      LastChunkWritten(buffer, UllBits, Draws(seed), current);
      out' := Copy(out, amount - extra, current, 0, extra).value;
      assert Rechunk.CeilDiv(amount, UllBits) == amount / UllBits + 1;
      assert seeds' == seeds[0 := Random.Iterate(seed, Rechunk.CeilDiv(amount, UllBits))];
    } else {
      AllChunksWritten(buffer, UllBits, Draws(seed));
      out', seeds' := out, seeds;
      assert Rechunk.CeilDiv(amount, UllBits) == amount / UllBits;
      assert seeds[0] == Random.Iterate(seed, Rechunk.CeilDiv(amount, UllBits));
      assert seeds == seeds[0 := seeds[0]];
      assert seeds' == seeds[0 := Random.Iterate(seed, Rechunk.CeilDiv(amount, UllBits))];
    }
  }

  /** The loop of pgs_generate_random: one word drawn from slot 0 per whole 64-bit chunk. */
  method FillWords(buffer: Block, seeds: seq<Random.Word>) returns (out: Block, seeds': seq<Random.Word>)
    requires |seeds| >= 1
    ensures Offset(|buffer.bits| / UllBits, UllBits) <= |buffer.bits|
    ensures out == Written(buffer, UllBits, Draws(seeds[0]), |buffer.bits| / UllBits)
    ensures seeds' == seeds[0 := Random.Iterate(seeds[0], |buffer.bits| / UllBits)]
  {
    var amount := |buffer.bits|;
    var count := amount - amount % UllBits;
    ghost var full := amount / UllBits;
    WholeChunks(amount, UllBits);
    out := buffer;
    seeds' := seeds;
    var i := 0;
    ghost var j := 0;
    ghost var seed := seeds[0];
    while i < count
      invariant j <= full && i == Offset(j, UllBits) && i <= count
      invariant seeds' == seeds[0 := Random.Iterate(seed, j)]
      invariant out == Written(buffer, UllBits, Draws(seed), j)
    {
      OffsetMonotone(j + 1, full, UllBits);
      out, seeds' := NextRandom(buffer, seeds, out, seeds', i, j);
      i := i + UllBits;
      j := j + 1;
    }
    OffsetMonotone(j, full, UllBits);
  }

  /** A slot written twice holds the second value. */
  lemma UpdateTwice<T>(s: seq<T>, i: nat, a: T, b: T)
    requires i < |s|
    ensures s[i := a][i := b] == s[i := b]
  {
  }

  /**
   * pgs_generate_random without OpenMP: the whole chunks, then one more
   * word for a partial chunk; the other slots are untouched.
   */
  method GenerateRandom(buffer: Block, seeds: seq<Random.Word>) returns (out: Block, seeds': seq<Random.Word>)
    requires |seeds| >= 1
    ensures out == buffer.(bits := RandomBits(seeds[0], |buffer.bits|))
    ensures seeds' == seeds[0 := Random.Iterate(seeds[0], Rechunk.CeilDiv(|buffer.bits|, UllBits))]
  {
    out, seeds' := FillWords(buffer, seeds);
    ghost var filled := seeds';
    out, seeds' := LastRandom(buffer, seeds[0], out, seeds');
    UpdateTwice(seeds, 0, filled[0], seeds'[0]);
  }

  // ---------------------------------------------------------------------
  // pgs_generate

  /**
   * pgs_generate: a fresh zeroed buffer of `amount` bits, filled by the
   * chosen source; an unknown source leaves it zeroed, and only the
   * predefined source can fail (for an unknown scheme).  The count
   * returned is always `amount`.
   */
  method Generate(source: nat, id: nat, amount: nat, seeds: seq<Random.Word>)
    returns (r: Result<(nat, Block)>, seeds': seq<Random.Word>)
    requires |seeds| >= 1
    ensures r.Fail? <==> source == PredefinedSource && ModulationSchemes.FromId(id).None?
    ensures r.Fail? ==> r.error == SwitchDefault
    ensures r.Ok? ==> r.value.0 == amount && |r.value.1.bits| == amount && !r.value.1.used
    ensures source == RandomSource ==> r == Ok((amount, Block(RandomBits(seeds[0], amount), false)))
    ensures source == PredefinedSource && r.Ok? ==>
      r.value.1.bits == PredefinedBits(ModulationSchemes.FromId(id).value, amount)
    ensures source != RandomSource && source != PredefinedSource ==> r == Ok((amount, CreateBlock(amount)))
    ensures source == RandomSource ==> seeds' == seeds[0 := Random.Iterate(seeds[0], Rechunk.CeilDiv(amount, UllBits))]
    ensures source != RandomSource ==> seeds' == seeds
  {
    var buffer := CreateBlock(amount);
    seeds' := seeds;
    if source == RandomSource {
      buffer, seeds' := GenerateRandom(buffer, seeds);
    } else if source == PredefinedSource {
      var filled := GeneratePredefined(buffer, id);
      if filled.Fail? {
        return Fail(SwitchDefault), seeds';
      }
      buffer := filled.value;
    }
    return Ok((amount, buffer)), seeds';
  }
}
