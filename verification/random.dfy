/**
 * The xorshift step of pegasus_random.c.  Every thread owns a 64-bit state
 * word, and __pgr_get_u64 advances the caller's word by three shift-XORs
 * and returns the new value.  A word is modelled as its 64 bits, most
 * significant first, which is also the order pgb_ull_to_block writes them
 * into a block.  The seeding from the clock is not modelled; the states
 * are a parameter.
 */
module Random {
  import opened Bits

  const WordBits: nat := 64

  /** An unsigned 64-bit word, most significant bit first. */
  type Word = s: seq<bool> | |s| == WordBits witness Zeros(WordBits)

  /**
   * The first n bits of x ^ (x << k): bit i of x << k is bit i + k of x,
   * or a zero shifted in once i + k leaves the word.
   */
  function XorLeftBits(x: Word, k: nat, n: nat): (r: seq<bool>)
    requires n <= WordBits
    ensures |r| == n
    ensures forall i {:trigger r[i]} :: 0 <= i < n ==> r[i] == (x[i] != (i + k < WordBits && x[i + k]))
  {
    if n == 0 then []
    else
      var prev := XorLeftBits(x, k, n - 1);
      var r := prev + [x[n - 1] != (n - 1 + k < WordBits && x[n - 1 + k])];
      assert forall i :: 0 <= i < n - 1 ==> r[i] == prev[i];
      r
  }

  /** The first n bits of x ^ (x >> k): bit i of x >> k is bit i - k of x, or a zero for i < k. */
  function XorRightBits(x: Word, k: nat, n: nat): (r: seq<bool>)
    requires n <= WordBits
    ensures |r| == n
    ensures forall i {:trigger r[i]} :: 0 <= i < n ==> r[i] == (x[i] != (i >= k && x[i - k]))
  {
    if n == 0 then []
    else
      var prev := XorRightBits(x, k, n - 1);
      var r := prev + [x[n - 1] != (n - 1 >= k && x[n - 1 - k])];
      assert forall i :: 0 <= i < n - 1 ==> r[i] == prev[i];
      r
  }

  /** x ^ (x << k) */
  function XorShiftLeft(x: Word, k: nat): (r: Word)
    ensures forall i {:trigger r[i]} :: 0 <= i < WordBits ==> r[i] == (x[i] != (i + k < WordBits && x[i + k]))
  {
    XorLeftBits(x, k, WordBits)
  }

  /** x ^ (x >> k) */
  function XorShiftRight(x: Word, k: nat): (r: Word)
    ensures forall i {:trigger r[i]} :: 0 <= i < WordBits ==> r[i] == (x[i] != (i >= k && x[i - k]))
  {
    XorRightBits(x, k, WordBits)
  }

  /** One step of the generator: x ^= x << 21; x ^= x >> 35; x ^= x << 4. */
  function Step(x: Word): Word
  {
    XorShiftLeft(XorShiftRight(XorShiftLeft(x, 21), 35), 4)
  }

  /** __pgr_get_u64: the caller's slot advances one step and its new value is returned. */
  function GetU64(seeds: seq<Word>, thread: nat): (r: (seq<Word>, Word))
    requires thread < |seeds|
    ensures |r.0| == |seeds| && r.0[thread] == r.1
    ensures forall t :: 0 <= t < |seeds| && t != thread ==> r.0[t] == seeds[t]
  {
    var next := Step(seeds[thread]);
    (seeds[thread := next], next)
  }

  /** The state after n steps: without OpenMP every draw goes to slot 0, so the n-th draw returns Iterate(seed, n). */
  function Iterate(x: Word, n: nat): Word
  {
    Repeat(Step, x, n)
  }

  /** f applied n times to x. */
  function Repeat(f: Word -> Word, x: Word, n: nat): Word
  {
    if n == 0 then x else f(Repeat(f, x, n - 1))
  }

  // ---------------------------------------------------------------------
  // Each shift-XOR undone

  /** Undoes x ^= x << 21: y ^ y << 21 ^ y << 42 ^ y << 63, as a fourth shift would move every bit out. */
  function UnShiftLeft21(y: Word): Word
  {
    XorShiftLeft(XorShiftLeft(y, 42), 21)
  }

  /** Undoes x ^= x >> 35: a second shift would already move every bit out. */
  function UnShiftRight35(y: Word): Word
  {
    XorShiftRight(y, 35)
  }

  /** Undoes x ^= x << 4: the shifts by 4, 8, 16 and 32 multiply out to all sixteen shifts that stay inside. */
  function UnShiftLeft4(y: Word): Word
  {
    XorShiftLeft(XorShiftLeft(XorShiftLeft(XorShiftLeft(y, 4), 8), 16), 32)
  }

  /** The inverse of the step: the three undo functions in reverse order. */
  function UnStep(y: Word): Word
  {
    UnShiftLeft21(UnShiftRight35(UnShiftLeft4(y)))
  }

  lemma ShiftLeft21Inverse(x: Word)
    ensures UnShiftLeft21(XorShiftLeft(x, 21)) == x
  {
    var y := XorShiftLeft(x, 21);
    var z := XorShiftLeft(y, 42);
    forall i | 0 <= i < WordBits
      ensures XorShiftLeft(z, 21)[i] == x[i]
    {
      assert y[i] == (x[i] != (i + 21 < WordBits && x[i + 21]));
      if i + 21 < WordBits {
        assert y[i + 21] == (x[i + 21] != (i + 42 < WordBits && x[i + 42]));
        assert z[i + 21] == (y[i + 21] != (i + 63 < WordBits && y[i + 63]));
      }
      if i + 42 < WordBits {
        assert y[i + 42] == (x[i + 42] != (i + 63 < WordBits && x[i + 63]));
      }
      if i + 63 < WordBits {
        assert y[i + 63] == x[i + 63];
      }
    }
  }

  lemma ShiftRight35Inverse(x: Word)
    ensures UnShiftRight35(XorShiftRight(x, 35)) == x
  {
    var y := XorShiftRight(x, 35);
    forall i | 0 <= i < WordBits
      ensures UnShiftRight35(y)[i] == x[i]
    {
      if i >= 35 {
        assert y[i - 35] == x[i - 35];
      }
    }
  }

  /** Squaring a shift-XOR doubles the shift: (1 + L)(1 + L) = 1 + L^2 over GF(2). */
  lemma SquareShiftLeft(x: Word, k: nat)
    requires 2 * k <= WordBits
    ensures XorShiftLeft(XorShiftLeft(x, k), k) == XorShiftLeft(x, 2 * k)
  {
    var y := XorShiftLeft(x, k);
    forall i | 0 <= i < WordBits
      ensures XorShiftLeft(y, k)[i] == XorShiftLeft(x, 2 * k)[i]
    {
      if i + k < WordBits {
        assert y[i + k] == (x[i + k] != (i + 2 * k < WordBits && x[i + 2 * k]));
      }
    }
  }

  lemma ShiftLeft4Inverse(x: Word)
    ensures UnShiftLeft4(XorShiftLeft(x, 4)) == x
  {
    SquareShiftLeft(x, 4);
    SquareShiftLeft(x, 8);
    SquareShiftLeft(x, 16);
    SquareShiftLeft(x, 32);
    assert XorShiftLeft(x, 64) == x;
  }

  /** Undoing a step gives the state back. */
  lemma StepInverse(x: Word)
    ensures UnStep(Step(x)) == x
  {
    var a := XorShiftLeft(x, 21);
    var b := XorShiftRight(a, 35);
    ShiftLeft4Inverse(b);
    ShiftRight35Inverse(a);
    ShiftLeft21Inverse(x);
  }

  /** Two states that step to the same word were the same state. */
  lemma StepInjective(x: Word, y: Word)
    requires Step(x) == Step(y)
    ensures x == y
  {
    StepInverse(x);
    StepInverse(y);
  }

  /** The value drawn determines the state it was drawn from: stepping back recovers it. */
  lemma GetU64Undo(seeds: seq<Word>, thread: nat)
    requires thread < |seeds|
    ensures UnStep(GetU64(seeds, thread).1) == seeds[thread]
    ensures GetU64(seeds, thread).0[thread := UnStep(GetU64(seeds, thread).1)] == seeds
  {
    StepInverse(seeds[thread]);
  }

  /** The all-zero word is a fixed point, and it is the only state that steps to zero. */
  lemma ZeroFixedPoint(x: Word)
    ensures Step(Zeros(WordBits)) == Zeros(WordBits)
    ensures Step(x) == Zeros(WordBits) <==> x == Zeros(WordBits)
  {
    var z: Word := Zeros(WordBits);
    assert XorShiftLeft(z, 21) == z;
    assert XorShiftRight(z, 35) == z;
    assert XorShiftLeft(z, 4) == z;
    if Step(x) == z {
      StepInjective(x, z);
    }
  }

  /** A generator seeded with a nonzero word never produces zero. */
  lemma NonzeroStaysNonzero(seeds: seq<Word>, thread: nat)
    requires thread < |seeds| && seeds[thread] != Zeros(WordBits)
    ensures GetU64(seeds, thread).1 != Zeros(WordBits)
  {
    ZeroFixedPoint(seeds[thread]);
  }

  /** A map under which only zero comes from zero keeps a nonzero word nonzero, however often it is applied. */
  lemma {:induction false} RepeatNonzero(f: Word -> Word, x: Word, n: nat)
    requires forall y: Word :: f(y) == Zeros(WordBits) ==> y == Zeros(WordBits)
    requires x != Zeros(WordBits)
    ensures Repeat(f, x, n) != Zeros(WordBits)
  {
    if n > 0 {
      RepeatNonzero(f, x, n - 1);
    }
  }

  /** A nonzero seed never reaches the all-zero state, however many words are drawn. */
  lemma IterateNonzero(x: Word, n: nat)
    requires x != Zeros(WordBits)
    ensures Iterate(x, n) != Zeros(WordBits)
  {
    forall y: Word
      ensures Step(y) == Zeros(WordBits) ==> y == Zeros(WordBits)
    {
      ZeroFixedPoint(y);
    }
    RepeatNonzero(Step, x, n);
  }
}
