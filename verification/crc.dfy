/**
 * The cyclic and BCH coders of pegasus_fec.c:286-297 and 382-396: a
 * systematic encoder that appends the remainder of the data block, and a
 * decoder that looks the remainder of the received word up in a syndrome
 * table and XORs the pattern it finds into the data bits.
 */
module Crc {
  import opened Bits
  import opened Wrappers
  import opened Block
  import Gf2
  import Syndromes
  import opened FecSchemes

  /**
   * pgf_encode_block_crc: copy k data bits into the target, divide the whole
   * target by the polynomial, then copy `suffix` remainder bits behind the
   * data.  Both copies are range-checked.
   */
  function Encode(target: Block, src: Block, polynome: Block, k: nat, suffix: nat): (r: Result<Block>)
    requires 1 <= |polynome.bits| <= |target.bits| + 1
    ensures r.Ok? <==> k <= |src.bits| && k + suffix <= |target.bits| && suffix <= |polynome.bits| - 1
    ensures r.Ok? ==> |r.value.bits| == |target.bits| && r.value.used == target.used
    ensures r.Ok? ==>
      var m := src.bits[..k] + target.bits[k..];
      r.value.bits == src.bits[..k] + Gf2.Remainder(m, polynome.bits)[..suffix] + target.bits[k + suffix..]
    ensures r.Fail? ==> r.error == RangeError
  {
    var x :- Copy(target, 0, src, 0, k);
    assert x.bits == src.bits[..k] + target.bits[k..];
    var syndrome := DivMod2(x, polynome);
    var y :- Copy(x, k, syndrome, 0, suffix);
    assert y.bits == src.bits[..k] + syndrome.bits[..suffix] + target.bits[k + suffix..];
    Ok(y)
  }

  /** pgb_divmod2 followed by pgb_block_to_ull: the remainder of e as a table index. */
  function Syndrome(e: Block, polynome: Block): (s: nat)
    requires 1 <= |polynome.bits| <= |e.bits| + 1
    ensures s < Pow2(|polynome.bits| - 1)
  {
    var q := DivMod2(e, polynome);
    ToNatBound(q.bits);
    ToNat(q.bits)
  }

  /**
   * pgf_decode_block_crc: copy k bits of the received word; if its syndrome
   * is nonzero and the table slot is marked used, XOR the slot's pattern
   * into every bit of the target (pgb_xor reads the pattern unchecked).
   */
  function Decode(target: Block, e: Block, table: seq<Block>, polynome: Block, k: nat): (r: Result<Block>)
    requires 1 <= |polynome.bits| <= |e.bits| + 1 && |polynome.bits| - 1 <= UllBits
    requires Pow2(|polynome.bits| - 1) <= |table|
    requires forall i :: 0 <= i < |table| ==> |target.bits| <= |table[i].bits|
    ensures r.Ok? <==> k <= |target.bits| && k <= |e.bits|
    ensures r.Ok? ==> |r.value.bits| == |target.bits| && r.value.used == target.used
    ensures r.Ok? ==>
      var s := Syndrome(e, polynome);
      var fix := s > 0 && table[s].used;
      forall j :: 0 <= j < |target.bits| ==>
        r.value.bits[j] == ((if j < k then e.bits[j] else target.bits[j]) != (fix && table[s].bits[j]))
    ensures r.Fail? ==> r.error == RangeError
  {
    var x :- Copy(target, 0, e, 0, k);
    var s := Syndrome(e, polynome);
    if s > 0 && table[s].used then Ok(XorBlock(x, table[s])) else Ok(x)
  }

  // ---------------------------------------------------------------------
  // The codes of the three schemes

  /** The code a scheme's syndrome table is built from. */
  function CodeOf(f: Fec): (c: Syndromes.Code)
    requires IsCrc(f)
    ensures Syndromes.Valid(c) && c.n == OutputBlockSize(f) && c.poly == Polynome(f).bits
    ensures |c.poly| == Suffix(f) + 1 && c.poly[0]
  {
    PolynomeBits(f);
    Syndromes.Code(OutputBlockSize(f), Power(f), Polynome(f).bits, TestBits(f))
  }

  /** The syndrome table of a scheme, as pgf_init_syndromes leaves it. */
  function TableOf(f: Fec): (t: seq<Block>)
    requires IsCrc(f)
    ensures |t| == Volume(f) == Pow2(|Polynome(f).bits| - 1) && Uniform(t, OutputBlockSize(f))
  {
    Syndromes.Table(CodeOf(f), Volume(f))
  }

  /** pgf_encode_block_crc with the constants of scheme f. */
  function EncodeFor(f: Fec, target: Block, src: Block): (r: Result<Block>)
    requires IsCrc(f) && Suffix(f) <= |target.bits|
    ensures r.Ok? <==> InputBlockSize(f) <= |src.bits| && InputBlockSize(f) + Suffix(f) <= |target.bits|
    ensures r.Ok? ==> |r.value.bits| == |target.bits| && r.value.used == target.used
    ensures r.Fail? ==> r.error == RangeError
  {
    PolynomeBits(f);
    Encode(target, src, Polynome(f), InputBlockSize(f), Suffix(f))
  }

  /** pgf_decode_block_crc with the constants and the syndrome table of scheme f. */
  function DecodeFor(f: Fec, target: Block, e: Block): (r: Result<Block>)
    requires IsCrc(f) && Suffix(f) <= |e.bits| && |target.bits| <= OutputBlockSize(f)
    ensures r.Ok? <==> InputBlockSize(f) <= |target.bits| && InputBlockSize(f) <= |e.bits|
    ensures r.Ok? ==> |r.value.bits| == |target.bits| && r.value.used == target.used
    ensures r.Fail? ==> r.error == RangeError
  {
    PolynomeBits(f);
    Decode(target, e, TableOf(f), Polynome(f), InputBlockSize(f))
  }

  /** pgf_init_syndromes for one scheme builds exactly TableOf. */
  method InitSyndromes(f: Fec) returns (table: seq<Block>)
    requires IsCrc(f)
    ensures table == TableOf(f)
    ensures forall s :: 0 <= s < |table| && table[s].used ==> 1 <= ToNat(table[s].bits)
  {
    PolynomeShape(f);
    TestShape(f);
    PolynomeBits(f);
    table := Syndromes.ExamineErrorVectors(OutputBlockSize(f), Volume(f), Power(f), Polynome(f), TestString(f));
    forall s | 0 <= s < |table| && table[s].used
      ensures 1 <= ToNat(table[s].bits)
    {
      Syndromes.TableEntry(CodeOf(f), Volume(f), s);
    }
  }

  // ---------------------------------------------------------------------
  // Encoding produces codewords

  /** Data followed by the remainder of data shifted by s places. */
  function Codeword(d: seq<bool>, poly: seq<bool>): (c: seq<bool>)
    requires 1 <= |poly|
    ensures |c| == |d| + |poly| - 1 && c[..|d|] == d
  {
    d + Gf2.Remainder(d + Zeros(|poly| - 1), poly)
  }

  /** A codeword is divisible by the polynomial. */
  lemma CodewordDivisible(d: seq<bool>, poly: seq<bool>)
    requires 1 <= |poly|
    ensures AllZero(Gf2.Remainder(Codeword(d, poly), poly))
  {
    var s := |poly| - 1;
    var r := Gf2.Remainder(d + Zeros(s), poly);
    assert Codeword(d, poly) == Xor(d + Zeros(s), Zeros(|d|) + r);
    Gf2.RemainderLinear(d + Zeros(s), Zeros(|d|) + r, poly);
    Gf2.RemainderOfTail(|d|, r, poly);
  }

  /** Encoding into a fresh block of k+s bits yields the codeword of the first k data bits. */
  lemma EncodeIsCodeword(src: Block, polynome: Block, k: nat)
    requires 1 <= |polynome.bits| && k <= |src.bits|
    ensures var s := |polynome.bits| - 1;
      Encode(CreateBlock(k + s), src, polynome, k, s) == Ok(Block(Codeword(src.bits[..k], polynome.bits), false))
  {
    var s := |polynome.bits| - 1;
    var t := CreateBlock(k + s);
    var d := src.bits[..k];
    var rem := Gf2.Remainder(d + Zeros(s), polynome.bits);
    ZerosSplit(k, s);
    assert rem[..s] == rem;
    assert d + rem[..s] + t.bits[k + s..] == Codeword(d, polynome.bits);
  }

  /** The last s bits of a fresh block of k + s bits are zero, and nothing lies beyond them. */
  lemma ZerosSplit(k: nat, s: nat)
    ensures Zeros(k + s)[k..] == Zeros(s) && Zeros(k + s)[k + s..] == []
  {
  }

  // ---------------------------------------------------------------------
  // Decoding

  /**
   * Decoding into a fresh k-bit block yields the k data bits of the
   * received word, XOR-ed with the table's pattern when its slot is used.
   */
  lemma DecodeFresh(e: Block, table: seq<Block>, polynome: Block, k: nat)
    requires 1 <= |polynome.bits| <= |e.bits| + 1 && |polynome.bits| - 1 <= UllBits
    requires Pow2(|polynome.bits| - 1) <= |table| && k <= |e.bits|
    requires forall i :: 0 <= i < |table| ==> k <= |table[i].bits|
    ensures var s := Syndrome(e, polynome);
      Decode(CreateBlock(k), e, table, polynome, k)
      == Ok(Block(if s > 0 && table[s].used then Xor(e.bits[..k], table[s].bits[..k]) else e.bits[..k], false))
  {
    var r := Decode(CreateBlock(k), e, table, polynome, k);
    var s := Syndrome(e, polynome);
    var fix := s > 0 && table[s].used;
    assert r.Ok?;
    assert |r.value.bits| == k && !r.value.used;
    var want := if fix then Xor(e.bits[..k], table[s].bits[..k]) else e.bits[..k];
    forall j | 0 <= j < k
      ensures r.value.bits[j] == want[j]
    {
    }
    assert r.value.bits == want;
  }

  /**
   * What the decoder of a scheme works with: a code whose test message is a
   * codeword, the polynomial block, a table of `volume` slots and k data
   * bits in front of |poly|-1 check bits.
   */
  predicate Setting(c: Syndromes.Code, volume: nat, polynome: Block, k: nat)
  {
    && Syndromes.Valid(c) && polynome.bits == c.poly
    && |c.poly| - 1 <= UllBits && Pow2(|c.poly| - 1) <= volume
    && k + |c.poly| - 1 == c.n
    && AllZero(Gf2.Remainder(c.message, c.poly))
  }

  /** Each of the three schemes decodes in such a setting. */
  lemma SchemeSetting(f: Fec)
    requires IsCrc(f)
    ensures Setting(CodeOf(f), Volume(f), Polynome(f), InputBlockSize(f))
  {
    TestIsCodeword(f);
  }

  /** The received word's syndrome is that of its error pattern alone. */
  lemma SyndromeOfError(c: Syndromes.Code, volume: nat, polynome: Block, k: nat, d: seq<bool>, v: nat)
    requires Setting(c, volume, polynome, k) && |d| == k
    ensures Syndrome(Block(Xor(Codeword(d, c.poly), Syndromes.Pattern(c, v)), false), polynome) == Syndromes.Slot(c, v)
  {
    var w := Codeword(d, c.poly);
    Syndromes.SlotOfCodeword(c, v);
    CodewordDivisible(d, c.poly);
    Gf2.RemainderLinear(w, Syndromes.Pattern(c, v), c.poly);
    var r0, r1 := Gf2.Remainder(w, c.poly), Gf2.Remainder(Syndromes.Pattern(c, v), c.poly);
    assert Xor(r0, r1) == r1;
  }

  /** An error-free codeword decodes to its data. */
  lemma DecodesCleanCodeword(c: Syndromes.Code, volume: nat, polynome: Block, k: nat, d: seq<bool>)
    requires Setting(c, volume, polynome, k) && |d| == k
    ensures Decode(CreateBlock(k), Block(Codeword(d, c.poly), false), Syndromes.Table(c, volume), polynome, k)
         == Ok(Block(d, false))
  {
    var w := Codeword(d, c.poly);
    CodewordDivisible(d, c.poly);
    ToNatZero(Gf2.Remainder(w, c.poly));
    DecodeFresh(Block(w, false), Syndromes.Table(c, volume), polynome, k);
  }

  /** Encoding a data block of scheme f into a fresh output block gives its codeword. */
  lemma SchemeEncode(f: Fec, s: Block)
    requires IsCrc(f) && |s.bits| == InputBlockSize(f)
    ensures EncodeFor(f, CreateBlock(OutputBlockSize(f)), s) == Ok(Block(Codeword(s.bits, Polynome(f).bits), false))
  {
    var k := InputBlockSize(f);
    assert s.bits[..k] == s.bits;
    EncodeIsCodeword(s, Polynome(f), k);
  }

  /** Decoding a clean codeword of scheme f into a fresh input block gives its data. */
  lemma SchemeDecode(f: Fec, d: seq<bool>)
    requires IsCrc(f) && |d| == InputBlockSize(f)
    ensures DecodeFor(f, CreateBlock(|d|), Block(Codeword(d, Polynome(f).bits), false)) == Ok(Block(d, false))
  {
    SchemeSetting(f);
    DecodesCleanCodeword(CodeOf(f), Volume(f), Polynome(f), |d|, d);
  }

  /**
   * A codeword hit by error pattern v decodes to its data whenever the error
   * changes the syndrome and v is the pattern the table keeps for that
   * syndrome.
   */
  lemma CorrectsTableErrors(c: Syndromes.Code, volume: nat, polynome: Block, k: nat, d: seq<bool>, v: nat)
    requires Setting(c, volume, polynome, k) && |d| == k
    requires Syndromes.Slot(c, v) != 0 && Syndromes.Best(c, 1, Syndromes.Slot(c, v)) == Some(v)
    ensures var e := Xor(Codeword(d, c.poly), Syndromes.Pattern(c, v));
      Decode(CreateBlock(k), Block(e, false), Syndromes.Table(c, volume), polynome, k) == Ok(Block(d, false))
  {
    var w := Codeword(d, c.poly);
    var pv := Syndromes.Pattern(c, v);
    var e := Xor(w, pv);
    SyndromeOfError(c, volume, polynome, k, d, v);
    var s := Syndromes.Slot(c, v);
    Syndromes.SlotBound(c, v);
    Syndromes.TableSlot(c, volume, s);
    DecodeFresh(Block(e, false), Syndromes.Table(c, volume), polynome, k);
    XorPrefixCancels(w, pv, k);
  }

  /** Adding the same error pattern twice cancels on any prefix. */
  lemma XorPrefixCancels(w: seq<bool>, p: seq<bool>, k: nat)
    requires |w| == |p| && k <= |w|
    ensures Xor(Xor(w, p)[..k], p[..k]) == w[..k]
  {
  }

  /**
   * A used slot's pattern leaves the same remainder as every word whose
   * syndrome selects that slot, so removing it leaves a codeword.
   */
  lemma SameRemainderDivides(c: Syndromes.Code, volume: nat, polynome: Block, k: nat, e: seq<bool>, s: nat)
    requires Setting(c, volume, polynome, k) && |e| == c.n
    requires s == Syndrome(Block(e, false), polynome) && Syndromes.Table(c, volume)[s].used
    ensures AllZero(Gf2.Remainder(Xor(e, Syndromes.Table(c, volume)[s].bits), c.poly))
  {
    var p := Syndromes.Table(c, volume)[s].bits;
    Syndromes.TableEntry(c, volume, s);
    var v := ToNat(p);
    Syndromes.SlotOfCodeword(c, v);
    var re, rp := Gf2.Remainder(e, c.poly), Gf2.Remainder(p, c.poly);
    ToNatInjective(re, rp);
    Gf2.RemainderLinear(e, p, c.poly);
    assert Xor(re, rp) == Zeros(|re|);
  }

  /**
   * What the decoder returns is the data part of a codeword: the received
   * word itself when the table has nothing for its syndrome, and the
   * received word with the table's pattern removed otherwise.
   */
  predicate DecodedFromCodeword(c: Syndromes.Code, volume: nat, polynome: Block, k: nat, e: seq<bool>)
    requires Setting(c, volume, polynome, k) && |e| == c.n
  {
    var table := Syndromes.Table(c, volume);
    var s := Syndrome(Block(e, false), polynome);
    var r := Decode(CreateBlock(k), Block(e, false), table, polynome, k);
    && r.Ok?
    && (s == 0 || !table[s].used ==> r.value.bits == e[..k])
    && (s != 0 && table[s].used ==>
          r.value.bits == Xor(e, table[s].bits)[..k] && AllZero(Gf2.Remainder(Xor(e, table[s].bits), c.poly)))
  }

  /** Every received word of the code's length decodes to the data part of a codeword. */
  lemma DecodesToCodeword(c: Syndromes.Code, volume: nat, polynome: Block, k: nat, e: seq<bool>)
    requires Setting(c, volume, polynome, k) && |e| == c.n
    ensures DecodedFromCodeword(c, volume, polynome, k, e)
  {
    var table := Syndromes.Table(c, volume);
    DecodeFresh(Block(e, false), table, polynome, k);
    var s := Syndrome(Block(e, false), polynome);
    if s != 0 && table[s].used {
      var p := table[s].bits;
      assert Xor(e[..k], p[..k]) == Xor(e, p)[..k];
      SameRemainderDivides(c, volume, polynome, k, e, s);
    }
  }

  // ---------------------------------------------------------------------
  // The (8,5) cyclic code cannot correct every single error

  lemma Cyclic85Step0()
    ensures Gf2.Reduce([true, false, false, false, false, false, false, false], [true, false, true, true], 0)
         == Gf2.Reduce([false, false, true, true, false, false, false, false], [true, false, true, true], 1)
  {
    ReduceVia([true, false, false, false, false, false, false, false], [true, false, true, true], 0,
              [false, false, true, true, false, false, false, false]);
  }

  lemma Cyclic85Step1()
    ensures Gf2.Reduce([false, false, true, true, false, false, false, false], [true, false, true, true], 1)
         == Gf2.Reduce([false, false, true, true, false, false, false, false], [true, false, true, true], 2)
  {
    ReduceVia([false, false, true, true, false, false, false, false], [true, false, true, true], 1,
              [false, false, true, true, false, false, false, false]);
  }

  lemma Cyclic85Step2()
    ensures Gf2.Reduce([false, false, true, true, false, false, false, false], [true, false, true, true], 2)
         == Gf2.Reduce([false, false, false, true, true, true, false, false], [true, false, true, true], 3)
  {
    ReduceVia([false, false, true, true, false, false, false, false], [true, false, true, true], 2,
              [false, false, false, true, true, true, false, false]);
  }

  lemma Cyclic85Step3()
    ensures Gf2.Reduce([false, false, false, true, true, true, false, false], [true, false, true, true], 3)
         == Gf2.Reduce([false, false, false, false, true, false, true, false], [true, false, true, true], 4)
  {
    ReduceVia([false, false, false, true, true, true, false, false], [true, false, true, true], 3,
              [false, false, false, false, true, false, true, false]);
  }

  lemma Cyclic85Step4()
    ensures Gf2.Reduce([false, false, false, false, true, false, true, false], [true, false, true, true], 4)
         == Gf2.Reduce([false, false, false, false, false, false, false, true], [true, false, true, true], 5)
  {
    ReduceVia([false, false, false, false, true, false, true, false], [true, false, true, true], 4,
              [false, false, false, false, false, false, false, true]);
  }

  /** x^7 leaves remainder 1 modulo x^3 + x + 1. */
  lemma Cyclic85HighBitRemainder()
    ensures Gf2.Remainder([true, false, false, false, false, false, false, false], [true, false, true, true])
         == [false, false, true]
  {
    Cyclic85Step0();
    Cyclic85Step1();
    Cyclic85Step2();
    Cyclic85Step3();
    Cyclic85Step4();
  }

  /** Patterns 128 and 1 as 8-bit words. */
  lemma Cyclic85Patterns()
    ensures FromNat(8, 128) == [true, false, false, false, false, false, false, false]
    ensures FromNat(8, 1) == Zeros(5) + [false, false, true]
  {
    assert FromNat(1, 1) == [true];
    assert FromNat(2, 2) == [true, false];
    assert FromNat(3, 4) == [true, false, false];
    assert FromNat(4, 8) == [true, false, false, false];
    assert FromNat(5, 16) == [true, false, false, false, false];
    assert FromNat(6, 32) == [true, false, false, false, false, false];
    assert FromNat(7, 64) == [true, false, false, false, false, false, false];
    assert FromNat(1, 0) == [false];
    assert FromNat(2, 0) == [false, false];
    assert FromNat(3, 0) == [false, false, false];
    assert FromNat(4, 0) == [false, false, false, false];
    assert FromNat(5, 0) == Zeros(5);
    assert FromNat(6, 0) == Zeros(5) + [false];
    assert FromNat(7, 0) == Zeros(5) + [false, false];
  }

  /** The 3-bit remainder 001 is slot 1. */
  lemma SlotOne()
    ensures ToNat([false, false, true]) == 1
  {
    assert [false, false, true][..2] == [false, false];
    assert [false, false][..1] == [false];
    assert [false][..0] == [];
  }

  /** The facts about the (8,5) code the counterexample uses. */
  predicate Cyclic85Like(c: Syndromes.Code)
  {
    && c.n == 8 && c.t == 1 && c.poly == [true, false, true, true] && |c.message| == 8
    && AllZero(Gf2.Remainder(c.message, c.poly))
  }

  /** Pattern 128, a single error in bit 0, is examined. */
  lemma Cyclic85KeepsBitZero(c: Syndromes.Code)
    requires Cyclic85Like(c)
    ensures Syndromes.Kept(c, 128)
  {
    assert BitCount(128) == 1 by {
      assert BitCount(1) == 1;
      assert BitCount(2) == 1;
      assert BitCount(4) == 1;
      assert BitCount(8) == 1;
      assert BitCount(16) == 1;
      assert BitCount(32) == 1;
      assert BitCount(64) == 1;
    }
  }

  /** An error in bit 0 lands in slot 1. */
  lemma Cyclic85BitZeroSlot(c: Syndromes.Code)
    requires Cyclic85Like(c)
    ensures Syndromes.Valid(c) && Syndromes.Slot(c, 128) == 1
  {
    Cyclic85Patterns();
    Syndromes.SlotOfCodeword(c, 128);
    Cyclic85HighBitRemainder();
    SlotOne();
  }

  /** An error in bit 7 lands in slot 1 too, and it is the pattern slot 1 keeps. */
  lemma Cyclic85BitSevenSlot(c: Syndromes.Code)
    requires Cyclic85Like(c)
    ensures Syndromes.Valid(c) && Syndromes.Slot(c, 1) == 1 && Syndromes.Best(c, 1, 1) == Some(1)
  {
    Cyclic85Patterns();
    Syndromes.SlotOfCodeword(c, 1);
    Gf2.RemainderOfTail(5, [false, false, true], c.poly);
    SlotOne();
    assert Syndromes.Kept(c, 1);
  }

  /**
   * An error in data bit 0 (pattern 128) and an error in the last check bit
   * (pattern 1) share syndrome 1; the table keeps pattern 1, so the decoder
   * leaves a flipped data bit 0 uncorrected although the code's weight bound
   * is 1.
   */
  lemma Cyclic85MissesBitZero(c: Syndromes.Code, volume: nat, polynome: Block, d: seq<bool>)
    requires Setting(c, volume, polynome, 5) && Cyclic85Like(c) && |d| == 5
    ensures Syndromes.Kept(c, 128) && Syndromes.Slot(c, 128) == Syndromes.Slot(c, 1) == 1
    ensures var e := Xor(Codeword(d, c.poly), Syndromes.Pattern(c, 128));
      Decode(CreateBlock(5), Block(e, false), Syndromes.Table(c, volume), polynome, 5)
      == Ok(Block([!d[0]] + d[1..], false))
  {
    Cyclic85Slots(c);
    Cyclic85Decode(c, volume, polynome, d);
    Cyclic85DataBits(d, Codeword(d, c.poly), Syndromes.Pattern(c, 128), Syndromes.Pattern(c, 1));
  }

  /** Patterns 128 and 1 are both examined and share slot 1, which keeps pattern 1. */
  lemma Cyclic85Slots(c: Syndromes.Code)
    requires Cyclic85Like(c)
    ensures Syndromes.Valid(c) && Syndromes.Kept(c, 128) && Syndromes.Slot(c, 128) == Syndromes.Slot(c, 1) == 1
    ensures Syndromes.Best(c, 1, 1) == Some(1)
  {
    Cyclic85KeepsBitZero(c);
    Cyclic85BitZeroSlot(c);
    Cyclic85BitSevenSlot(c);
  }

  /** The word hit in bit 0 is decoded by removing pattern 1 from its data bits. */
  lemma Cyclic85Decode(c: Syndromes.Code, volume: nat, polynome: Block, d: seq<bool>)
    requires Setting(c, volume, polynome, 5) && Cyclic85Like(c) && |d| == 5
    ensures var e := Xor(Codeword(d, c.poly), Syndromes.Pattern(c, 128));
      Decode(CreateBlock(5), Block(e, false), Syndromes.Table(c, volume), polynome, 5)
      == Ok(Block(Xor(e[..5], Syndromes.Pattern(c, 1)[..5]), false))
  {
    Cyclic85Slots(c);
    Cyclic85Lookup(c, volume, polynome, d);
    var e := Xor(Codeword(d, c.poly), Syndromes.Pattern(c, 128));
    DecodeUsedSlot(Block(e, false), Syndromes.Table(c, volume), polynome, 5, 8, 1);
  }

  /** DecodeFresh for a word whose syndrome selects a used slot of a table of n-bit patterns. */
  lemma DecodeUsedSlot(e: Block, table: seq<Block>, polynome: Block, k: nat, n: nat, s: nat)
    requires 1 <= |polynome.bits| <= |e.bits| + 1 && |polynome.bits| - 1 <= UllBits
    requires Pow2(|polynome.bits| - 1) <= |table| && k <= |e.bits| && k <= n && Uniform(table, n)
    requires Syndrome(e, polynome) == s && 0 < s < |table| && table[s].used
    ensures Decode(CreateBlock(k), e, table, polynome, k) == Ok(Block(Xor(e.bits[..k], table[s].bits[..k]), false))
  {
    DecodeFresh(e, table, polynome, k);
  }

  /** The word hit in bit 0 has syndrome 1, whose slot holds pattern 1. */
  lemma Cyclic85Lookup(c: Syndromes.Code, volume: nat, polynome: Block, d: seq<bool>)
    requires Setting(c, volume, polynome, 5) && |c.poly| == 4 && |d| == 5
    requires Syndromes.Slot(c, 128) == 1 && Syndromes.Best(c, 1, 1) == Some(1)
    ensures var e := Xor(Codeword(d, c.poly), Syndromes.Pattern(c, 128));
      && Syndrome(Block(e, false), polynome) == 1
      && 1 < volume && Syndromes.Table(c, volume)[1] == Block(Syndromes.Pattern(c, 1), true)
  {
    SyndromeOfError(c, volume, polynome, 5, d, 128);
    Cyclic85SlotOne(c, volume);
  }

  /** Slot 1 of the table exists and holds pattern 1. */
  lemma Cyclic85SlotOne(c: Syndromes.Code, volume: nat)
    requires Syndromes.Valid(c) && |c.poly| == 4 && Pow2(|c.poly| - 1) <= volume
    requires Syndromes.Best(c, 1, 1) == Some(1)
    ensures 1 < volume && Syndromes.Table(c, volume)[1] == Block(Syndromes.Pattern(c, 1), true)
  {
    assert Pow2(3) == 8;
    Syndromes.TableSlot(c, volume, 1);
  }

  /** Removing pattern 1 from the data bits of a word hit in bit 0 leaves bit 0 flipped. */
  lemma Cyclic85DataBits(d: seq<bool>, w: seq<bool>, p128: seq<bool>, p1: seq<bool>)
    requires |d| == 5 && |w| == 8 && w[..5] == d
    requires p128 == FromNat(8, 128) && p1 == FromNat(8, 1)
    ensures Xor(Xor(w, p128)[..5], p1[..5]) == [!d[0]] + d[1..]
  {
    Cyclic85Patterns();
    assert p1[..5] == Zeros(5);
  }

  /** The Cyclic85 scheme is such a code. */
  lemma Cyclic85Scheme()
    ensures Setting(CodeOf(Cyclic85), Volume(Cyclic85), Polynome(Cyclic85), 5)
    ensures Cyclic85Like(CodeOf(Cyclic85))
  {
    SchemeSetting(Cyclic85);
  }
}
