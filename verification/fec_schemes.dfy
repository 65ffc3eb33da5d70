/**
 * The forward error correction schemes of pegasus_fec.h: identifiers,
 * block sizes, parity suffixes, correction powers, generator polynomials,
 * test sequences and syndrome-table volumes, and the size getters and
 * name table of pegasus_fec.c that switch over them.
 */
module FecSchemes {
  import opened Bits
  import opened Wrappers
  import opened Block
  import Gf2

  datatype Fec = NoFec | Hamming74 | Cyclic85 | Bch1557 | Bch1575

  /** The PGF_* identifier of a scheme. */
  function Id(f: Fec): nat
  {
    match f
    case NoFec => 1
    case Hamming74 => 2
    case Cyclic85 => 3
    case Bch1557 => 4
    case Bch1575 => 5
  }

  /** The scheme an identifier names, if any. */
  function FromId(id: nat): (r: Option<Fec>)
    ensures r.Some? <==> 1 <= id <= 5
    ensures r.Some? ==> Id(r.value) == id
  {
    if id == 1 then Some(NoFec)
    else if id == 2 then Some(Hamming74)
    else if id == 3 then Some(Cyclic85)
    else if id == 4 then Some(Bch1557)
    else if id == 5 then Some(Bch1575)
    else None
  }

  /** The identifiers are distinct, so the switch statements are well defined. */
  lemma IdsDistinct(f: Fec, g: Fec)
    ensures Id(f) == Id(g) <==> f == g
    ensures FromId(Id(f)) == Some(f)
  {
  }

  /** The CRC-style schemes: syndrome-table decoding with a generator polynomial. */
  predicate IsCrc(f: Fec)
  {
    f == Cyclic85 || f == Bch1557 || f == Bch1575
  }

  /** PGF_*_INPUT_BLOCK_SIZE; NoFec's 0 means "the source block size". */
  function InputBlockSize(f: Fec): nat
  {
    match f
    case NoFec => 0
    case Hamming74 => 4
    case Cyclic85 => 5
    case Bch1557 => 5
    case Bch1575 => 7
  }

  /** PGF_*_OUTPUT_BLOCK_SIZE; NoFec's 0 means "the source block size". */
  function OutputBlockSize(f: Fec): nat
  {
    match f
    case NoFec => 0
    case Hamming74 => 7
    case Cyclic85 => 8
    case Bch1557 => 15
    case Bch1575 => 15
  }

  /** PGF_*_FEC_SUFFIX: the parity bits appended to each input block. */
  function Suffix(f: Fec): (s: nat)
    ensures InputBlockSize(f) + s == OutputBlockSize(f) && s <= 10
  {
    OutputBlockSize(f) - InputBlockSize(f)
  }

  /** PGF_*_FEC_POWER: the number of bit errors the decoder is built to correct. */
  function Power(f: Fec): nat
    requires f != NoFec
  {
    match f
    case Hamming74 => 1
    case Cyclic85 => 1
    case Bch1557 => 3
    case Bch1575 => 2
  }

  /** PGF_*_POLYNOME, most significant coefficient first. */
  function PolyString(f: Fec): string
    requires IsCrc(f)
  {
    match f
    case Cyclic85 => "1011"
    case Bch1557 => "10100110111"
    case Bch1575 => "111010001"
  }

  /** PGF_*_TEST: the message the syndrome table is built around. */
  function TestString(f: Fec): string
    requires IsCrc(f)
  {
    match f
    case Cyclic85 => "10101101"
    case Bch1557 => "101011001000111"
    case Bch1575 => "101010111100101"
  }

  /** PGF_*_VOLUME: 1 << suffix syndrome slots. */
  function Volume(f: Fec): nat
    requires IsCrc(f)
  {
    Pow2(Suffix(f))
  }

  /**
   * pgf_init_polynomes: a block of suffix+1 bits loaded from the polynomial
   * string.
   */
  function Polynome(f: Fec): (p: Block)
    requires IsCrc(f)
    ensures |p.bits| == Suffix(f) + 1
  {
    PolynomeShape(f);
    BinaryStringToBlock(CreateBlock(Suffix(f) + 1), PolyString(f))
  }

  /**
   * Each polynomial string is a binary string of suffix+1 digits whose
   * leading digit is 1, so it fills its block exactly and the divisor is monic.
   */
  lemma PolynomeShape(f: Fec)
    requires IsCrc(f)
    ensures CString(PolyString(f)) && BinaryDigits(PolyString(f))
    ensures |PolyString(f)| == Suffix(f) + 1 && PolyString(f)[0] == '1'
  {
  }

  /** Each test string is a binary string as long as a codeword. */
  lemma TestShape(f: Fec)
    requires IsCrc(f)
    ensures CString(TestString(f)) && BinaryDigits(TestString(f))
    ensures |TestString(f)| == OutputBlockSize(f)
  {
  }

  /** The bits the test message block holds. */
  function TestBits(f: Fec): (m: seq<bool>)
    requires IsCrc(f)
    ensures |m| == OutputBlockSize(f)
  {
    TestShape(f);
    BinaryStringToBlock(CreateBlock(OutputBlockSize(f)), TestString(f)).bits
  }

  /** The polynomial block has a leading one and the length the division needs. */
  lemma PolynomeBits(f: Fec)
    requires IsCrc(f)
    ensures |Polynome(f).bits| == Suffix(f) + 1 && Polynome(f).bits[0]
    ensures 1 <= |Polynome(f).bits| <= |TestBits(f)| + 1
  {
    PolynomeShape(f);
  }

  // ---------------------------------------------------------------------
  // Each test sequence is a codeword of its code.

  /** One outer-loop iteration of the division, as a rewriting step. */
  lemma ReduceVia(t: seq<bool>, d: seq<bool>, i: nat, u: seq<bool>)
    requires 1 <= |d| <= |t| + 1 && i < Gf2.Span(t, d) && Gf2.Step(t, d, i) == u
    ensures Gf2.Reduce(t, d, i) == Gf2.Reduce(u, d, i + 1)
  {
  }

  lemma Cyclic85TestIsCodeword()
    ensures Gf2.Remainder(TestBits(Cyclic85), Polynome(Cyclic85).bits) == Zeros(3)
  {
    assert TestBits(Cyclic85)
        == [true, false, true, false, true, true, false, true];
    assert Polynome(Cyclic85).bits
        == [true, false, true, true];
    Cyclic85Division();
  }

  /** The long division of the Cyclic85 test message, one outer iteration per step. */
  lemma Cyclic85Division()
    ensures Gf2.Remainder([true, false, true, false, true, true, false, true],
                          [true, false, true, true]) == Zeros(3)
  {
    Cyclic85Step0();
    Cyclic85Step1();
    Cyclic85Step2();
    Cyclic85Step3();
    Cyclic85Step4();
  }

  lemma Cyclic85Step0()
    ensures Gf2.Reduce([true, false, true, false, true, true, false, true],
                       [true, false, true, true], 0)
         == Gf2.Reduce([false, false, false, true, true, true, false, true],
                       [true, false, true, true], 1)
  {
    ReduceVia([true, false, true, false, true, true, false, true],
              [true, false, true, true], 0,
              [false, false, false, true, true, true, false, true]);
  }

  lemma Cyclic85Step1()
    ensures Gf2.Reduce([false, false, false, true, true, true, false, true],
                       [true, false, true, true], 1)
         == Gf2.Reduce([false, false, false, true, true, true, false, true],
                       [true, false, true, true], 2)
  {
    ReduceVia([false, false, false, true, true, true, false, true],
              [true, false, true, true], 1,
              [false, false, false, true, true, true, false, true]);
  }

  lemma Cyclic85Step2()
    ensures Gf2.Reduce([false, false, false, true, true, true, false, true],
                       [true, false, true, true], 2)
         == Gf2.Reduce([false, false, false, true, true, true, false, true],
                       [true, false, true, true], 3)
  {
    ReduceVia([false, false, false, true, true, true, false, true],
              [true, false, true, true], 2,
              [false, false, false, true, true, true, false, true]);
  }

  lemma Cyclic85Step3()
    ensures Gf2.Reduce([false, false, false, true, true, true, false, true],
                       [true, false, true, true], 3)
         == Gf2.Reduce([false, false, false, false, true, false, true, true],
                       [true, false, true, true], 4)
  {
    ReduceVia([false, false, false, true, true, true, false, true],
              [true, false, true, true], 3,
              [false, false, false, false, true, false, true, true]);
  }

  lemma Cyclic85Step4()
    ensures Gf2.Reduce([false, false, false, false, true, false, true, true],
                       [true, false, true, true], 4)
         == Gf2.Reduce([false, false, false, false, false, false, false, false],
                       [true, false, true, true], 5)
  {
    ReduceVia([false, false, false, false, true, false, true, true],
              [true, false, true, true], 4,
              [false, false, false, false, false, false, false, false]);
  }


  lemma Bch1557TestIsCodeword()
    ensures Gf2.Remainder(TestBits(Bch1557), Polynome(Bch1557).bits) == Zeros(10)
  {
    assert TestBits(Bch1557)
        == [true, false, true, false, true, true, false, false, true, false, false, false, true, true, true];
    assert Polynome(Bch1557).bits
        == [true, false, true, false, false, true, true, false, true, true, true];
    Bch1557Division();
  }

  /** The long division of the Bch1557 test message, one outer iteration per step. */
  lemma Bch1557Division()
    ensures Gf2.Remainder([true, false, true, false, true, true, false, false, true, false, false, false, true, true, true],
                          [true, false, true, false, false, true, true, false, true, true, true]) == Zeros(10)
  {
    Bch1557Step0();
    Bch1557Step1();
    Bch1557Step2();
    Bch1557Step3();
    Bch1557Step4();
  }

  lemma Bch1557Step0()
    ensures Gf2.Reduce([true, false, true, false, true, true, false, false, true, false, false, false, true, true, true],
                       [true, false, true, false, false, true, true, false, true, true, true], 0)
         == Gf2.Reduce([false, false, false, false, true, false, true, false, false, true, true, false, true, true, true],
                       [true, false, true, false, false, true, true, false, true, true, true], 1)
  {
    ReduceVia([true, false, true, false, true, true, false, false, true, false, false, false, true, true, true],
              [true, false, true, false, false, true, true, false, true, true, true], 0,
              [false, false, false, false, true, false, true, false, false, true, true, false, true, true, true]);
  }

  lemma Bch1557Step1()
    ensures Gf2.Reduce([false, false, false, false, true, false, true, false, false, true, true, false, true, true, true],
                       [true, false, true, false, false, true, true, false, true, true, true], 1)
         == Gf2.Reduce([false, false, false, false, true, false, true, false, false, true, true, false, true, true, true],
                       [true, false, true, false, false, true, true, false, true, true, true], 2)
  {
    ReduceVia([false, false, false, false, true, false, true, false, false, true, true, false, true, true, true],
              [true, false, true, false, false, true, true, false, true, true, true], 1,
              [false, false, false, false, true, false, true, false, false, true, true, false, true, true, true]);
  }

  lemma Bch1557Step2()
    ensures Gf2.Reduce([false, false, false, false, true, false, true, false, false, true, true, false, true, true, true],
                       [true, false, true, false, false, true, true, false, true, true, true], 2)
         == Gf2.Reduce([false, false, false, false, true, false, true, false, false, true, true, false, true, true, true],
                       [true, false, true, false, false, true, true, false, true, true, true], 3)
  {
    ReduceVia([false, false, false, false, true, false, true, false, false, true, true, false, true, true, true],
              [true, false, true, false, false, true, true, false, true, true, true], 2,
              [false, false, false, false, true, false, true, false, false, true, true, false, true, true, true]);
  }

  lemma Bch1557Step3()
    ensures Gf2.Reduce([false, false, false, false, true, false, true, false, false, true, true, false, true, true, true],
                       [true, false, true, false, false, true, true, false, true, true, true], 3)
         == Gf2.Reduce([false, false, false, false, true, false, true, false, false, true, true, false, true, true, true],
                       [true, false, true, false, false, true, true, false, true, true, true], 4)
  {
    ReduceVia([false, false, false, false, true, false, true, false, false, true, true, false, true, true, true],
              [true, false, true, false, false, true, true, false, true, true, true], 3,
              [false, false, false, false, true, false, true, false, false, true, true, false, true, true, true]);
  }

  lemma Bch1557Step4()
    ensures Gf2.Reduce([false, false, false, false, true, false, true, false, false, true, true, false, true, true, true],
                       [true, false, true, false, false, true, true, false, true, true, true], 4)
         == Gf2.Reduce([false, false, false, false, false, false, false, false, false, false, false, false, false, false, false],
                       [true, false, true, false, false, true, true, false, true, true, true], 5)
  {
    ReduceVia([false, false, false, false, true, false, true, false, false, true, true, false, true, true, true],
              [true, false, true, false, false, true, true, false, true, true, true], 4,
              [false, false, false, false, false, false, false, false, false, false, false, false, false, false, false]);
  }


  lemma Bch1575TestIsCodeword()
    ensures Gf2.Remainder(TestBits(Bch1575), Polynome(Bch1575).bits) == Zeros(8)
  {
    assert TestBits(Bch1575)
        == [true, false, true, false, true, false, true, true, true, true, false, false, true, false, true];
    assert Polynome(Bch1575).bits
        == [true, true, true, false, true, false, false, false, true];
    Bch1575Division();
  }

  /** The long division of the Bch1575 test message, one outer iteration per step. */
  lemma Bch1575Division()
    ensures Gf2.Remainder([true, false, true, false, true, false, true, true, true, true, false, false, true, false, true],
                          [true, true, true, false, true, false, false, false, true]) == Zeros(8)
  {
    Bch1575Step0();
    Bch1575Step1();
    Bch1575Step2();
    Bch1575Step3();
    Bch1575Step4();
    Bch1575Step5();
    Bch1575Step6();
  }

  lemma Bch1575Step0()
    ensures Gf2.Reduce([true, false, true, false, true, false, true, true, true, true, false, false, true, false, true],
                       [true, true, true, false, true, false, false, false, true], 0)
         == Gf2.Reduce([false, true, false, false, false, false, true, true, false, true, false, false, true, false, true],
                       [true, true, true, false, true, false, false, false, true], 1)
  {
    ReduceVia([true, false, true, false, true, false, true, true, true, true, false, false, true, false, true],
              [true, true, true, false, true, false, false, false, true], 0,
              [false, true, false, false, false, false, true, true, false, true, false, false, true, false, true]);
  }

  lemma Bch1575Step1()
    ensures Gf2.Reduce([false, true, false, false, false, false, true, true, false, true, false, false, true, false, true],
                       [true, true, true, false, true, false, false, false, true], 1)
         == Gf2.Reduce([false, false, true, true, false, true, true, true, false, false, false, false, true, false, true],
                       [true, true, true, false, true, false, false, false, true], 2)
  {
    ReduceVia([false, true, false, false, false, false, true, true, false, true, false, false, true, false, true],
              [true, true, true, false, true, false, false, false, true], 1,
              [false, false, true, true, false, true, true, true, false, false, false, false, true, false, true]);
  }

  lemma Bch1575Step2()
    ensures Gf2.Reduce([false, false, true, true, false, true, true, true, false, false, false, false, true, false, true],
                       [true, true, true, false, true, false, false, false, true], 2)
         == Gf2.Reduce([false, false, false, false, true, true, false, true, false, false, true, false, true, false, true],
                       [true, true, true, false, true, false, false, false, true], 3)
  {
    ReduceVia([false, false, true, true, false, true, true, true, false, false, false, false, true, false, true],
              [true, true, true, false, true, false, false, false, true], 2,
              [false, false, false, false, true, true, false, true, false, false, true, false, true, false, true]);
  }

  lemma Bch1575Step3()
    ensures Gf2.Reduce([false, false, false, false, true, true, false, true, false, false, true, false, true, false, true],
                       [true, true, true, false, true, false, false, false, true], 3)
         == Gf2.Reduce([false, false, false, false, true, true, false, true, false, false, true, false, true, false, true],
                       [true, true, true, false, true, false, false, false, true], 4)
  {
    ReduceVia([false, false, false, false, true, true, false, true, false, false, true, false, true, false, true],
              [true, true, true, false, true, false, false, false, true], 3,
              [false, false, false, false, true, true, false, true, false, false, true, false, true, false, true]);
  }

  lemma Bch1575Step4()
    ensures Gf2.Reduce([false, false, false, false, true, true, false, true, false, false, true, false, true, false, true],
                       [true, true, true, false, true, false, false, false, true], 4)
         == Gf2.Reduce([false, false, false, false, false, false, true, true, true, false, true, false, false, false, true],
                       [true, true, true, false, true, false, false, false, true], 5)
  {
    ReduceVia([false, false, false, false, true, true, false, true, false, false, true, false, true, false, true],
              [true, true, true, false, true, false, false, false, true], 4,
              [false, false, false, false, false, false, true, true, true, false, true, false, false, false, true]);
  }

  lemma Bch1575Step5()
    ensures Gf2.Reduce([false, false, false, false, false, false, true, true, true, false, true, false, false, false, true],
                       [true, true, true, false, true, false, false, false, true], 5)
         == Gf2.Reduce([false, false, false, false, false, false, true, true, true, false, true, false, false, false, true],
                       [true, true, true, false, true, false, false, false, true], 6)
  {
    ReduceVia([false, false, false, false, false, false, true, true, true, false, true, false, false, false, true],
              [true, true, true, false, true, false, false, false, true], 5,
              [false, false, false, false, false, false, true, true, true, false, true, false, false, false, true]);
  }

  lemma Bch1575Step6()
    ensures Gf2.Reduce([false, false, false, false, false, false, true, true, true, false, true, false, false, false, true],
                       [true, true, true, false, true, false, false, false, true], 6)
         == Gf2.Reduce([false, false, false, false, false, false, false, false, false, false, false, false, false, false, false],
                       [true, true, true, false, true, false, false, false, true], 7)
  {
    ReduceVia([false, false, false, false, false, false, true, true, true, false, true, false, false, false, true],
              [true, true, true, false, true, false, false, false, true], 6,
              [false, false, false, false, false, false, false, false, false, false, false, false, false, false, false]);
  }

  /** Every test message is a codeword: its remainder is zero. */
  lemma TestIsCodeword(f: Fec)
    requires IsCrc(f)
    ensures 1 <= |Polynome(f).bits| <= |TestBits(f)| + 1
    ensures AllZero(Gf2.Remainder(TestBits(f), Polynome(f).bits))
  {
    PolynomeBits(f);
    match f
    case Cyclic85 => Cyclic85TestIsCodeword();
    case Bch1557 => Bch1557TestIsCodeword();
    case Bch1575 => Bch1575TestIsCodeword();
  }

  // ---------------------------------------------------------------------
  // The switches of pegasus_fec.c over a raw identifier

  /** pgf_to_string: an unknown identifier is fatal. */
  function Name(id: nat): (r: Result<string>)
    ensures r.Ok? <==> FromId(id).Some?
    ensures r.Fail? ==> r.error == SwitchDefault
  {
    match FromId(id)
    case None => Fail(SwitchDefault)
    case Some(f) => Ok(match f
      case NoFec => "No FEC"
      case Hamming74 => "Hamming code (7, 4)"
      case Cyclic85 => "Cyclic code (8, 5)"
      case Bch1557 => "BCH code (15, 5, 7)"
      case Bch1575 => "BCH code (15, 7, 5)")
  }

  /** pgf_get_input_block_size: an unknown identifier is fatal. */
  function InputSize(id: nat): (r: Result<nat>)
    ensures r.Ok? <==> FromId(id).Some?
    ensures r.Ok? ==> r.value == InputBlockSize(FromId(id).value)
    ensures r.Fail? ==> r.error == SwitchDefault
  {
    match FromId(id)
    case None => Fail(SwitchDefault)
    case Some(f) => Ok(InputBlockSize(f))
  }

  /** pgf_get_output_block_size: an unknown identifier is fatal. */
  function OutputSize(id: nat): (r: Result<nat>)
    ensures r.Ok? <==> FromId(id).Some?
    ensures r.Ok? ==> r.value == OutputBlockSize(FromId(id).value)
    ensures r.Fail? ==> r.error == SwitchDefault
  {
    match FromId(id)
    case None => Fail(SwitchDefault)
    case Some(f) => Ok(OutputBlockSize(f))
  }

  /** The names are pairwise different, so the printed report identifies the scheme. */
  lemma NamesDistinct(a: nat, b: nat)
    requires Name(a).Ok? && Name(b).Ok? && a != b
    ensures Name(a).value != Name(b).value
  {
  }
}
