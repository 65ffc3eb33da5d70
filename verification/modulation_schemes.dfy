/**
 * The modulation schemes of pegasus_modulation.h: identifiers, block sizes,
 * volumes, the parameters pgm_init_tables passes to the table fillers, the
 * QAM bounds and the early-exit thresholds of the nearest-point search, and
 * the getters of pegasus_modulation.c that switch over them.  Angles, sines
 * and square roots stay symbolic: the model records which constant the C
 * code uses, not its floating-point value.
 */
module ModulationSchemes {
  import opened Bits
  import opened Wrappers

  datatype Scheme =
    | Ask | Fsk | Bpsk | Qpsk
    | Psk8 | Psk16 | Psk32 | Psk64 | Psk256 | Psk1024
    | Qam16 | Qam32 | Qam64 | Qam256 | Qam1024

  /** The PGM_* identifier of a scheme. */
  function Id(m: Scheme): nat
  {
    match m
    case Ask => 1
    case Fsk => 2
    case Bpsk => 3
    case Qpsk => 4
    case Psk8 => 5
    case Psk16 => 6
    case Psk32 => 7
    case Psk64 => 8
    case Psk256 => 9
    case Psk1024 => 10
    case Qam16 => 11
    case Qam32 => 12
    case Qam64 => 13
    case Qam256 => 14
    case Qam1024 => 15
  }

  /** The scheme an identifier names, if any. */
  function FromId(id: nat): (r: Option<Scheme>)
    ensures r.Some? <==> 1 <= id <= 15
    ensures r.Some? ==> Id(r.value) == id
  {
    match id
    case 1 => Some(Ask)
    case 2 => Some(Fsk)
    case 3 => Some(Bpsk)
    case 4 => Some(Qpsk)
    case 5 => Some(Psk8)
    case 6 => Some(Psk16)
    case 7 => Some(Psk32)
    case 8 => Some(Psk64)
    case 9 => Some(Psk256)
    case 10 => Some(Psk1024)
    case 11 => Some(Qam16)
    case 12 => Some(Qam32)
    case 13 => Some(Qam64)
    case 14 => Some(Qam256)
    case 15 => Some(Qam1024)
    case _ => None
  }

  /** The identifiers are distinct, so the switch statements are well defined. */
  lemma IdsDistinct(m: Scheme, n: Scheme)
    ensures Id(m) == Id(n) <==> m == n
    ensures FromId(Id(m)) == Some(m)
  {
  }

  /** PGM_*_BLOCK_SIZE: the bits one constellation point carries. */
  function BlockSize(m: Scheme): nat
  {
    match m
    case Ask => 1
    case Fsk => 1
    case Bpsk => 1
    case Qpsk => 2
    case Psk8 => 3
    case Psk16 => 4
    case Psk32 => 5
    case Psk64 => 6
    case Psk256 => 8
    case Psk1024 => 10
    case Qam16 => 4
    case Qam32 => 5
    case Qam64 => 6
    case Qam256 => 8
    case Qam1024 => 10
  }

  /** PGM_*_VOLUME, defined as 1 << block size: the number of constellation points. */
  function Volume(m: Scheme): nat
  {
    Pow2(BlockSize(m))
  }

  /** An angle the C code writes as a multiple of pi: zero or pi / d. */
  datatype Angle = Zero | PiOver(d: nat)

  /**
   * How pgm_init_tables fills a scheme's table: pgm_fill_xsk with an angle
   * step, a phase shift and the Gray and self-multiply flags, or one of the
   * two QAM grid walks with the scheme's bound.
   */
  datatype Fill =
    | Xsk(angleStep: Angle, phaseShift: Angle, grayCoded: bool, selfMultiply: bool)
    | RectangleQam(bound: nat)
    | CrossQam(bound: nat)

  function Layout(m: Scheme): Fill
  {
    match m
    case Ask => Xsk(Zero, Zero, false, true)
    case Fsk => Xsk(PiOver(4), Zero, false, false)
    case Bpsk => Xsk(PiOver(2), Zero, false, false)
    case Qpsk => Xsk(PiOver(4), PiOver(4), true, false)
    case Psk8 => Xsk(PiOver(8), Zero, true, false)
    case Psk16 => Xsk(PiOver(16), Zero, true, false)
    case Psk32 => Xsk(PiOver(32), Zero, true, false)
    case Psk64 => Xsk(PiOver(64), Zero, true, false)
    case Psk256 => Xsk(PiOver(256), Zero, true, false)
    case Psk1024 => Xsk(PiOver(1024), Zero, true, false)
    case Qam16 => RectangleQam(3)
    case Qam32 => CrossQam(5)
    case Qam64 => RectangleQam(7)
    case Qam256 => RectangleQam(15)
    case Qam1024 => RectangleQam(31)
  }

  predicate IsQam(m: Scheme)
  {
    m == Qam16 || m == Qam32 || m == Qam64 || m == Qam256 || m == Qam1024
  }

  /** PGM_*QAM_BOUND: the largest grid coordinate of a QAM constellation. */
  function Bound(m: Scheme): nat
    requires IsQam(m)
  {
    match m
    case Qam16 => 3
    case Qam32 => 5
    case Qam64 => 7
    case Qam256 => 15
    case Qam1024 => 31
  }

  /** A constant of the search: 0.5, the sine of an angle, or 1 / (b * sqrt 2). */
  datatype Threshold = Half | SinOf(angle: Angle) | InverseBoundRoot2(b: nat)

  /** PGM_*QAM_NORMALIZATION: the factor a grid coordinate is scaled by. */
  function Normalization(m: Scheme): Threshold
    requires IsQam(m)
  {
    InverseBoundRoot2(Bound(m))
  }

  /** PGM_*_MINIMUM: the distance below which the search stops early. */
  function Minimum(m: Scheme): Threshold
  {
    match m
    case Ask => Half
    case Qam16 => InverseBoundRoot2(3)
    case Qam32 => InverseBoundRoot2(5)
    case Qam64 => InverseBoundRoot2(7)
    case Qam256 => InverseBoundRoot2(15)
    case Qam1024 => InverseBoundRoot2(31)
    case _ => SinOf(Layout(m).angleStep)
  }

  // ---------------------------------------------------------------------
  // Facts about the constants

  /**
   * The QAM layouts use the scheme's bound, each rectangular grid has
   * exactly as many points as the volume, and the 6 x 6 grid of 32-QAM has
   * four points too many: its corners.
   */
  lemma QamGridSizes(m: Scheme)
    requires IsQam(m)
    ensures Layout(m) == (if m == Qam32 then CrossQam(Bound(m)) else RectangleQam(Bound(m)))
    ensures m != Qam32 ==> (Bound(m) + 1) * (Bound(m) + 1) == Volume(m)
    ensures m == Qam32 ==> (Bound(m) + 1) * (Bound(m) + 1) - 4 == Volume(m)
  {
    assert Pow2(4) == 16 && Pow2(5) == 32 && Pow2(6) == 64;
    assert Pow2(8) == 256;
    assert Pow2(10) == 1024;
  }

  /** A QAM search stops early below the scheme's normalisation factor, the grid spacing. */
  lemma QamMinimumIsNormalization(m: Scheme)
    requires IsQam(m)
    ensures Minimum(m) == Normalization(m)
  {
  }

  /**
   * Only QPSK and the higher PSK schemes are Gray coded, only ASK scales
   * its points by their index, and a PSK's threshold is the sine of its
   * angle step.
   */
  lemma XskFlags(m: Scheme)
    requires Layout(m).Xsk?
    ensures !IsQam(m)
    ensures Layout(m).grayCoded <==> m != Ask && m != Fsk && m != Bpsk
    ensures Layout(m).selfMultiply <==> m == Ask
    ensures m != Ask ==> Minimum(m) == SinOf(Layout(m).angleStep) && Layout(m).angleStep.PiOver?
  {
  }

  // ---------------------------------------------------------------------
  // The getters of pegasus_modulation.c

  /** pgm_get_volume: an unknown identifier is fatal. */
  function GetVolume(id: nat): (r: Result<nat>)
    ensures r.Fail? <==> FromId(id).None?
    ensures r.Fail? ==> r.error == SwitchDefault
    ensures r.Ok? ==> r.value == Pow2(BlockSize(FromId(id).value)) && r.value >= 2
  {
    match FromId(id)
    case None => Fail(SwitchDefault)
    case Some(m) => Ok(Volume(m))
  }

  /** pgm_get_block_size: an unknown identifier is fatal. */
  function GetBlockSize(id: nat): (r: Result<nat>)
    ensures r.Fail? <==> FromId(id).None?
    ensures r.Fail? ==> r.error == SwitchDefault
    ensures r.Ok? ==> 1 <= r.value <= 10
  {
    match FromId(id)
    case None => Fail(SwitchDefault)
    case Some(m) => Ok(BlockSize(m))
  }

  /** pgm_to_string: an unknown identifier is fatal. */
  function Name(id: nat): (r: Result<string>)
    ensures r.Fail? <==> FromId(id).None?
    ensures r.Fail? ==> r.error == SwitchDefault
  {
    match FromId(id)
    case None => Fail(SwitchDefault)
    case Some(m) =>
      Ok(match m
         case Ask => "Amplitude-shift keying"
         case Fsk => "Frequency-shift keying"
         case Bpsk => "Binary phase-shift keying"
         case Qpsk => "Quadrature phase-shift keying"
         case Psk8 => "8-phase shift keying"
         case Psk16 => "16-phase shift keying"
         case Psk32 => "32-phase shift keying"
         case Psk64 => "64-phase shift keying"
         case Psk256 => "256-phase shift keying"
         case Psk1024 => "1024-phase shift keying"
         case Qam16 => "16-quadrature-amplitude modulation"
         case Qam32 => "32-quadrature-amplitude modulation"
         case Qam64 => "64-quadrature-amplitude modulation"
         case Qam256 => "256-quadrature-amplitude modulation"
         case Qam1024 => "1024-quadrature-amplitude modulation")
  }
}
