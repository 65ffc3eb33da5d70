/**
 * The syndrome tables of the CRC-style decoders, built by
 * pgf_examine_error_vectors (pegasus_fec.c:98-126).  Every error pattern of
 * weight at most t is XOR-ed into a test message, the remainder of the result
 * selects a table slot, and the pattern is written there.  The enumeration
 * runs downwards, so the last write, and hence the pattern a slot keeps, is
 * the numerically smallest pattern that reaches it.
 */
module Syndromes {
  import opened Bits
  import opened Wrappers
  import opened Block
  import Gf2
  import Tools

  /** The data a table is built from: block size n, weight bound t, divisor and test message. */
  datatype Code = Code(n: nat, t: nat, poly: seq<bool>, message: seq<bool>)

  predicate Valid(c: Code)
  {
    1 <= |c.poly| <= c.n + 1 && |c.message| == c.n
  }

  /** Error pattern number v: the n-bit big-endian expansion pgb_ull_to_block gives. */
  function Pattern(c: Code, v: nat): (p: seq<bool>)
    ensures |p| == c.n
  {
    FromNat(c.n, v)
  }

  /** Whether the enumeration examines pattern v: its popcount is at most t. */
  predicate Kept(c: Code, v: nat)
  {
    BitCount(v) <= c.t
  }

  /** The table slot pattern v is written to: the remainder of the distorted test message. */
  function Slot(c: Code, v: nat): nat
    requires Valid(c)
  {
    ToNat(Gf2.Remainder(Xor(c.message, Pattern(c, v)), c.poly))
  }

  /** The smallest examined pattern in [lo, 2^n) that reaches slot s, if any. */
  function Best(c: Code, lo: nat, s: nat): (r: Option<nat>)
    requires Valid(c)
    ensures r.Some? ==> lo <= r.value < Pow2(c.n) && Kept(c, r.value) && Slot(c, r.value) == s
    ensures forall v :: lo <= v < Pow2(c.n) && (r.None? || v < r.value) ==> !(Kept(c, v) && Slot(c, v) == s)
    decreases Pow2(c.n) - lo
  {
    if lo >= Pow2(c.n) then None
    else if Kept(c, lo) && Slot(c, lo) == s then Some(lo)
    else Best(c, lo + 1, s)
  }

  /** Slot s once the patterns from lo upwards have been examined. */
  function Entry(c: Code, lo: nat, s: nat): (e: Block)
    requires Valid(c)
    ensures |e.bits| == c.n
  {
    match Best(c, lo, s)
    case None => Block(Zeros(c.n), false)
    case Some(v) => Block(Pattern(c, v), true)
  }

  /** The finished table: every nonzero pattern has been examined. */
  function Table(c: Code, volume: nat): (r: seq<Block>)
    requires Valid(c)
    ensures |r| == volume && Uniform(r, c.n)
  {
    seq(volume, s requires 0 <= s < volume => Entry(c, 1, s))
  }

  /** Examining pattern lo: it takes slot s if it is kept and reaches s. */
  lemma EntryStep(c: Code, lo: nat, s: nat)
    requires Valid(c) && lo < Pow2(c.n)
    ensures Entry(c, lo, s)
         == if Kept(c, lo) && Slot(c, lo) == s then Block(Pattern(c, lo), true) else Entry(c, lo + 1, s)
  {
  }

  /** The state of the table after examining every pattern from lo upwards. */
  function Partial(c: Code, volume: nat, lo: nat): (r: seq<Block>)
    requires Valid(c)
    ensures |r| == volume && Uniform(r, c.n)
  {
    seq(volume, s requires 0 <= s < volume => Entry(c, lo, s))
  }

  /** One iteration of the enumeration, as a table update. */
  lemma PartialStep(c: Code, volume: nat, i: nat)
    requires Valid(c) && 1 <= i < Pow2(c.n)
    ensures Kept(c, i) && Slot(c, i) < volume ==>
      Partial(c, volume, i) == Partial(c, volume, i + 1)[Slot(c, i) := Block(Pattern(c, i), true)]
    ensures !Kept(c, i) ==> Partial(c, volume, i) == Partial(c, volume, i + 1)
  {
    var a, b := Partial(c, volume, i), Partial(c, volume, i + 1);
    forall s | 0 <= s < volume
      ensures a[s] == if Kept(c, i) && Slot(c, i) == s then Block(Pattern(c, i), true) else b[s]
    {
      EntryStep(c, i, s);
    }
  }

  /** Before any pattern is examined the table is as pgb_create_blocks made it. */
  lemma PartialEmpty(c: Code, volume: nat)
    requires Valid(c)
    ensures Partial(c, volume, Pow2(c.n)) == CreateBlocks(volume, c.n)
  {
  }

  /** A slot index is a remainder of |poly|-1 bits, so it is below 2^(|poly|-1). */
  lemma SlotBound(c: Code, v: nat)
    requires Valid(c)
    ensures Slot(c, v) < Pow2(|c.poly| - 1)
  {
    ToNatBound(Gf2.Remainder(Xor(c.message, Pattern(c, v)), c.poly));
  }

  /** The test message distorted by pattern v, as pgb_xor leaves it. */
  lemma DistortedMessage(c: Code, m: Block, e: Block, v: nat)
    requires Valid(c) && m == Block(c.message, false) && e.bits == Pattern(c, v)
    ensures XorBlock(m, e) == Block(Xor(c.message, Pattern(c, v)), false)
  {
    assert e.bits[..|m.bits|] == e.bits;
  }

  /** Writing the pattern over a slot of n bits replaces all of it. */
  lemma CopyWhole(dst: Block, src: Block)
    requires |dst.bits| == |src.bits|
    ensures Copy(dst, 0, src, 0, |src.bits|) == Ok(Block(src.bits, dst.used))
  {
    var r := Copy(dst, 0, src, 0, |src.bits|);
    assert r.value.bits == src.bits;
  }

  /** One pass of the enumeration: pattern i is examined only if its popcount is at most t. */
  method ExamineStep(ghost c: Code, blockSize: nat, volume: nat, errorsCount: nat, i: nat, polynome: Block,
                     testMessage: Block, testError: Block, table: seq<Block>)
    returns (table': seq<Block>, testMessage': Block, testError': Block)
    requires Valid(c) && c.n == blockSize < UllBits && c.poly == polynome.bits && c.t == errorsCount
    requires Pow2(|c.poly| - 1) <= volume
    requires 1 <= i < Pow2(c.n)
    requires testMessage == Block(c.message, false) && |testError.bits| == c.n
    requires table == Partial(c, volume, i + 1)
    ensures table' == Partial(c, volume, i)
    ensures testMessage' == testMessage && |testError'.bits| == c.n
  {
    Pow2Monotone(blockSize, UllBits);
    var weight := Tools.Popcount(i);
    if weight <= errorsCount {
      table', testMessage', testError' := ExaminePattern(c, blockSize, volume, i, polynome, testMessage, testError, table);
    } else {
      table', testMessage', testError' := table, testMessage, testError;
      PartialStep(c, volume, i);
    }
  }

  /**
   * The body of the enumeration for a kept pattern i: mark and overwrite
   * slot remainder(message xor pattern), then restore the test message.
   */
  method ExaminePattern(ghost c: Code, blockSize: nat, volume: nat, i: nat, polynome: Block,
                        testMessage: Block, testError: Block, table: seq<Block>)
    returns (table': seq<Block>, testMessage': Block, testError': Block)
    requires Valid(c) && c.n == blockSize < UllBits && c.poly == polynome.bits
    requires Pow2(|c.poly| - 1) <= volume
    requires 1 <= i < Pow2(c.n) && Kept(c, i)
    requires testMessage == Block(c.message, false) && |testError.bits| == c.n
    requires table == Partial(c, volume, i + 1)
    ensures table' == Partial(c, volume, i)
    ensures testMessage' == testMessage && |testError'.bits| == c.n
  {
    testError' := LoadPattern(blockSize, testError, i);
    DistortedMessage(c, testMessage, testError', i);
    testMessage' := XorBlock(testMessage, testError');
    var testSyndrome := DivMod2(testMessage', polynome);
    var index := BlockToUll(testSyndrome);
    SlotBound(c, i);
    CopyWhole(table[index].(used := true), testError');
    var slot := Copy(table[index].(used := true), 0, testError', 0, blockSize).value;
    table' := table[index := slot];
    PartialStep(c, volume, i);
    XorTwice(testMessage, testError');
    testMessage' := XorBlock(testMessage', testError');
  }

  /** pgb_ull_to_block(test_error, i): the block now holds pattern i. */
  function LoadPattern(n: nat, testError: Block, i: nat): (r: Block)
    requires n < UllBits && |testError.bits| == n && i < Pow2(n)
    ensures r.bits == FromNat(n, i) && r.used == testError.used
  {
    Pow2Monotone(n, UllBits);
    FromNatSmall(n, i);
    var r := UllToBlock(testError, i);
    FromNatToNat(r.bits);
    r
  }

  /**
   * pgf_examine_error_vectors.  The table has `volume` slots of n bits; the
   * patterns 2^n-1 down to 1 of popcount at most t are written to the slot
   * their remainder selects.  The C code shifts 1ULL by n and indexes the
   * table without a check, hence the bounds on n and on the volume.
   */
  method ExamineErrorVectors(blockSize: nat, volume: nat, errorsCount: nat, polynome: Block, testSequence: string)
    returns (table: seq<Block>)
    requires blockSize < UllBits
    requires 1 <= |polynome.bits| <= blockSize + 1
    requires CString(testSequence) && |testSequence| <= blockSize
    requires Pow2(|polynome.bits| - 1) <= volume
    ensures table == Table(Code(blockSize, errorsCount, polynome.bits,
                                BinaryStringToBlock(CreateBlock(blockSize), testSequence).bits), volume)
  {
    table := CreateBlocks(volume, blockSize);
    var testMessage := CreateBlock(blockSize);
    var testError := CreateBlock(blockSize);
    testMessage := BinaryStringToBlock(testMessage, testSequence);
    ghost var c := Code(blockSize, errorsCount, polynome.bits, testMessage.bits);
    assert Valid(c) && c.n == blockSize && c.t == errorsCount && c.poly == polynome.bits;
    assert Pow2(|c.poly| - 1) <= volume;
    PartialEmpty(c, volume);
    Pow2Monotone(blockSize, UllBits);
    var i := Pow2(blockSize) - 1;
    while i > 0
      invariant 0 <= i < Pow2(c.n)
      invariant testMessage == Block(c.message, false)
      invariant |testError.bits| == c.n
      invariant table == Partial(c, volume, i + 1)
    {
      table, testMessage, testError := ExamineStep(c, blockSize, volume, errorsCount, i, polynome, testMessage, testError, table);
      i := i - 1;
    }
    PartialComplete(c, volume, i + 1);
  }

  /** Once pattern 1 has been examined the partial table is the whole table. */
  lemma PartialComplete(c: Code, volume: nat, lo: nat)
    requires Valid(c) && lo == 1
    ensures Partial(c, volume, lo) == Table(c, volume)
  {
  }

  // ---------------------------------------------------------------------
  // What a finished table holds

  /**
   * A used slot holds the smallest examined pattern that reaches it, marked
   * used; a slot no examined pattern reaches stays zero and unmarked.
   */
  lemma TableEntry(c: Code, volume: nat, s: nat)
    requires Valid(c) && s < volume
    ensures var e := Table(c, volume)[s];
      && (!e.used ==> AllZero(e.bits) && forall v :: 1 <= v < Pow2(c.n) ==> !(Kept(c, v) && Slot(c, v) == s))
      && (e.used ==>
            var w := ToNat(e.bits);
            && 1 <= w < Pow2(c.n) && e.bits == Pattern(c, w) && Kept(c, w) && Slot(c, w) == s
            && forall v :: 1 <= v < w ==> !(Kept(c, v) && Slot(c, v) == s))
  {
    match Best(c, 1, s)
    case None =>
    case Some(w) =>
      FromNatSmall(c.n, w);
  }

  /** A slot some examined pattern reaches holds the smallest such pattern. */
  lemma TableSlot(c: Code, volume: nat, s: nat)
    requires Valid(c) && s < volume
    ensures Best(c, 1, s).Some? ==> Table(c, volume)[s] == Block(Pattern(c, Best(c, 1, s).value), true)
  {
  }

  /**
   * Every examined pattern finds its slot used, holding a pattern no larger
   * than itself with the same remainder.
   */
  lemma TableCovers(c: Code, volume: nat, v: nat)
    requires Valid(c) && Pow2(|c.poly| - 1) <= volume
    requires 1 <= v < Pow2(c.n) && Kept(c, v)
    ensures Slot(c, v) < volume
    ensures var e := Table(c, volume)[Slot(c, v)];
      e.used && 1 <= ToNat(e.bits) <= v && Slot(c, ToNat(e.bits)) == Slot(c, v)
  {
    SlotBound(c, v);
    TableEntry(c, volume, Slot(c, v));
  }

  /**
   * When the test message is a codeword its remainder vanishes, so a slot
   * depends on the error pattern alone.
   */
  lemma SlotOfCodeword(c: Code, v: nat)
    requires Valid(c) && AllZero(Gf2.Remainder(c.message, c.poly))
    ensures Slot(c, v) == ToNat(Gf2.Remainder(Pattern(c, v), c.poly))
  {
    var r0, r1 := Gf2.Remainder(c.message, c.poly), Gf2.Remainder(Pattern(c, v), c.poly);
    Gf2.RemainderLinear(c.message, Pattern(c, v), c.poly);
    assert Xor(r0, r1) == r1;
  }
}
