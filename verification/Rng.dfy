/** The jitter generator SplitMix64 (src/rng.rs) and the seed scrambler mix64 (src/trigger.rs). */
module Rng {
  import opened Words

  /** The additive step of the generator and the two odd multipliers of its finalizer. */
  const GAMMA: Word := 0x9E37_79B9_7F4A_7C15
  const M1: Word := 0xBF58_476D_1CE4_E5B9
  const M2: Word := 0x94D0_49BB_1331_11EB

  /** Their multiplicative inverses modulo 2^64. */
  const GAMMA_INV: Word := 0xF1DE_83E1_9937_733D
  const M1_INV: Word := 0x96DE_1B17_3F11_9089
  const M2_INV: Word := 0x3196_42B2_D24D_8EC3

  /** The finalizer for any three shifts and two multipliers: two xor-multiply rounds, one xor-shift. */
  function Scramble(z: Word, k1: nat, m1: Word, k2: nat, m2: Word, k3: nat): Word {
    XorShift(Round(Round(z, k1, m1), k2, m2), k3)
  }

  function Round(z: Word, k: nat, m: Word): Word { WrapMul(XorShift(z, k), m) }

  function Unscramble(y: Word, k1: nat, inv1: Word, k2: nat, inv2: Word, k3: nat): Word {
    Unround(Unround(UnXorShift(y, k3), k2, inv2), k1, inv1)
  }

  function Unround(y: Word, k: nat, inv: Word): Word { UnXorShift(WrapMul(y, inv), k) }

  lemma RoundRoundTrip(z: Word, k: nat, m: Word, inv: Word)
    requires k >= 22 && (m * inv) % WORD == 1
    ensures Unround(Round(z, k, m), k, inv) == z
    ensures Round(Unround(z, k, inv), k, m) == z
  {
    MulRoundTrip(XorShift(z, k), m, inv);
    ShiftThenUnshift(z, k);
    assert (inv * m) % WORD == 1;
    MulRoundTrip(z, inv, m);
    UnshiftThenShift(WrapMul(z, inv), k);
  }

  lemma ScrambleRoundTrip(z: Word, k1: nat, m1: Word, inv1: Word, k2: nat, m2: Word, inv2: Word, k3: nat)
    requires k1 >= 22 && k2 >= 22 && k3 >= 22
    requires (m1 * inv1) % WORD == 1 && (m2 * inv2) % WORD == 1
    ensures Unscramble(Scramble(z, k1, m1, k2, m2, k3), k1, inv1, k2, inv2, k3) == z
    ensures Scramble(Unscramble(z, k1, inv1, k2, inv2, k3), k1, m1, k2, m2, k3) == z
  {
    var a := Round(z, k1, m1);
    RoundRoundTrip(z, k1, m1, inv1);
    RoundRoundTrip(a, k2, m2, inv2);
    ShiftThenUnshift(Round(a, k2, m2), k3);
    var b := UnXorShift(z, k3);
    var c := Unround(b, k2, inv2);
    UnshiftThenShift(z, k3);
    RoundRoundTrip(b, k2, m2, inv2);
    RoundRoundTrip(c, k1, m1, inv1);
  }

  /** The scramble of src/trigger.rs: add the golden-ratio constant, then finalize. */
  function Mix64(x: Word): Word {
    Scramble(WrapAdd(x, GAMMA), 30, M1, 27, M2, 31)
  }

  /** The scramble in plain arithmetic: the reference SplitMix64 constants, and shifts by 30, 27 and 31
      bits as divisions. */
  lemma MixIsSplitMix(x: Word)
    ensures
      var z0 := (x + 0x9E37_79B9_7F4A_7C15) % 0x1_0000_0000_0000_0000;
      var z1 := (Xor(z0, z0 / 0x4000_0000) * 0xBF58_476D_1CE4_E5B9) % 0x1_0000_0000_0000_0000;
      var z2 := (Xor(z1, z1 / 0x800_0000) * 0x94D0_49BB_1331_11EB) % 0x1_0000_0000_0000_0000;
      Mix64(x) == Xor(z2, z2 / 0x8000_0000)
  {
    var z0 := WrapAdd(x, GAMMA);
    var z1 := Round(z0, 30, M1);
    var z2 := Round(z1, 27, M2);
    ShiftAmounts();
    ShrIsQuotient(z0, 30);
    ShrIsQuotient(z1, 27);
    ShrIsQuotient(z2, 31);
  }

  lemma ShiftAmounts()
    ensures Pow2(27) == 0x800_0000 && Pow2(30) == 0x4000_0000 && Pow2(31) == 0x8000_0000
  {
    assert Pow2(12) == 0x1000;
    assert Pow2(24) == 0x100_0000;
  }

  /** The candidate inverse of `Mix64`: every step undone in the opposite order. */
  function Unmix64(y: Word): Word {
    WrapAdd(Unscramble(y, 30, M1_INV, 27, M2_INV, 31), WORD - GAMMA)
  }

  lemma AddRoundTrip(x: Word, g: Word)
    requires g > 0
    ensures WrapAdd(WrapAdd(x, g), WORD - g) == x
  {
  }

  /** The scramble is a bijection on 64-bit words: `Unmix64` is its two-sided inverse. */
  lemma MixIsBijective(x: Word)
    ensures Unmix64(Mix64(x)) == x
    ensures Mix64(Unmix64(x)) == x
  {
    MixThenUnmix(x);
    UnmixThenMix(x);
  }

  lemma MixThenUnmix(x: Word)
    ensures Unmix64(Mix64(x)) == x
  {
    ScrambleRoundTrip(WrapAdd(x, GAMMA), 30, M1, M1_INV, 27, M2, M2_INV, 31);
    AddRoundTrip(x, GAMMA);
  }

  lemma UnmixThenMix(y: Word)
    ensures Mix64(Unmix64(y)) == y
  {
    ScrambleRoundTrip(y, 30, M1, M1_INV, 27, M2, M2_INV, 31);
    AddRoundTrip(Unscramble(y, 30, M1_INV, 27, M2_INV, 31), WORD - GAMMA);
  }

  lemma MixIsInjective(x: Word, y: Word)
    ensures Mix64(x) == Mix64(y) <==> x == y
  {
    MixThenUnmix(x);
    MixThenUnmix(y);
  }

  // ---- the generator as a sequence of draws

  /** The word `n` steps of `g` after `x`. */
  function Stepped(x: Word, n: nat, g: Word): Word {
    if n == 0 then x else WrapAdd(Stepped(x, n - 1, g), g)
  }

  lemma {:induction false} SteppedClosedForm(x: Word, n: nat, g: Word)
    ensures Stepped(x, n, g) == (x + n * g) % WORD
  {
    if n > 0 {
      SteppedClosedForm(x, n - 1, g);
      ModAddLeft(x + (n - 1) * g, g);
      assert x + (n - 1) * g + g == x + n * g;
    }
  }

  lemma SteppedCycle(x: Word, i: nat, j: nat, g: Word, inv: Word)
    requires (g * inv) % WORD == 1
    ensures Stepped(x, i, g) == Stepped(x, j, g) <==> (i - j) % WORD == 0
  {
    SteppedClosedForm(x, i, g);
    SteppedClosedForm(x, j, g);
    OddStepsMeet(x, i, j, g, inv, Stepped(x, i, g), Stepped(x, j, g));
  }

  /** The generator's state after `n` draws from `seed`. */
  function StateAfter(seed: Word, n: nat): Word { Stepped(seed, n, GAMMA) }

  /** The `n`-th draw from `seed`, counting from one: the scramble of the state before it. */
  function Draw(seed: Word, n: nat): Word
    requires n >= 1
  {
    Mix64(StateAfter(seed, n - 1))
  }

  /** The state has a closed form. */
  lemma StateClosedForm(seed: Word, n: nat)
    ensures StateAfter(seed, n) == (seed + n * GAMMA) % WORD
  {
    SteppedClosedForm(seed, n, GAMMA);
  }

  /** The n-th draw is the scramble of `seed + (n - 1) * GAMMA`: the generator needs no history. */
  lemma DrawClosedForm(seed: Word, n: nat)
    requires n >= 1
    ensures Draw(seed, n) == Mix64((seed + (n - 1) * GAMMA) % WORD)
  {
    StateClosedForm(seed, n - 1);
  }

  lemma StatesCycle(seed: Word, i: nat, j: nat)
    ensures StateAfter(seed, i) == StateAfter(seed, j) <==> (i - j) % WORD == 0
  {
    SteppedCycle(seed, i, j, GAMMA, GAMMA_INV);
  }

  /** Full period, exactly: two draws of one generator agree if and only if their positions agree
      modulo 2^64. So any 2^64 consecutive draws are pairwise distinct and then the sequence repeats. */
  lemma FullPeriod(seed: Word, i: nat, j: nat)
    requires i >= 1 && j >= 1
    ensures Draw(seed, i) == Draw(seed, j) <==> (i - j) % WORD == 0
  {
    StatesCycle(seed, i - 1, j - 1);
    MixIsInjective(StateAfter(seed, i - 1), StateAfter(seed, j - 1));
    assert i - 1 - (j - 1) == i - j;
  }

  /** Every word is drawn within any 2^64 consecutive draws. */
  lemma EveryWordIsDrawn(seed: Word, first: nat, w: Word) returns (n: nat)
    requires first >= 1
    ensures first <= n < first + WORD
    ensures Draw(seed, n) == w
  {
    var m, there := first - 1, Unmix64(w);
    var steps := StepsBetween(StateAfter(seed, m), there);
    n := first + steps;
    assert n - 1 == m + steps;
    assert StateAfter(seed, n - 1) == there by { StateReached(seed, m, there); }
    UnmixThenMix(w);
  }

  /** How many draws lead from one state to another. */
  function StepsBetween(here: Word, there: Word): Word {
    ((there - here) * GAMMA_INV) % WORD
  }

  lemma StateReached(seed: Word, m: nat, there: Word)
    ensures StateAfter(seed, m + StepsBetween(StateAfter(seed, m), there)) == there
  {
    var here := StateAfter(seed, m);
    var steps := StepsBetween(here, there);
    StateJoin(seed, m, steps);
    StateClosedForm(here, steps);
    StepsReach(here, there);
  }

  lemma {:induction false} StateJoin(seed: Word, m: nat, n: nat)
    ensures StateAfter(StateAfter(seed, m), n) == StateAfter(seed, m + n)
  {
    if n > 0 { StateJoin(seed, m, n - 1); }
  }

  lemma StepsReach(here: Word, there: Word)
    ensures (here + StepsBetween(here, there) * GAMMA) % WORD == there
  {
    var d := there - here;
    var k := d * GAMMA_INV;
    var t := (GAMMA * GAMMA_INV) / WORD;
    assert GAMMA * GAMMA_INV == t * WORD + 1;
    assert k % WORD == k - (k / WORD) * WORD;
    assert (k % WORD) * GAMMA == d + (d * t - (k / WORD) * GAMMA) * WORD;
    ModOfShift(there, d * t - (k / WORD) * GAMMA);
  }

  // ---- the bounded draw

  /** A full-width draw folded into `[0, span]`; the widest span needs no folding (and `span + 1`
      would overflow). */
  function Offset(span: Word, draw: Word): (r: Word)
    ensures r <= span
    ensures draw <= span ==> r == draw
  {
    if span == WORD - 1 then draw else draw % (span + 1)
  }

  /** `random_range` over nanosecond durations, for a given full-width draw. Both ends are truncated
      to 64 bits and the span saturates at zero, as the casts and `saturating_sub` do. */
  function RangeOf(lo: nat, hi: nat, draw: Word): Word {
    var span := RangeTop(lo, hi) - lo % WORD;
    WrapAdd(lo % WORD, Offset(span, draw))
  }

  /** The largest value `random_range` can return. */
  function RangeTop(lo: nat, hi: nat): Word {
    if hi % WORD >= lo % WORD then hi % WORD else lo % WORD
  }

  /** The draw never wraps around: it lies between the truncated lower end and `RangeTop`. */
  lemma RangeStaysInside(lo: nat, hi: nat, draw: Word)
    ensures lo % WORD <= RangeOf(lo, hi, draw) <= RangeTop(lo, hi)
  {
  }

  /** Every value between the truncated lower end and `RangeTop` is produced by some draw. */
  lemma RangeIsCovered(lo: nat, hi: nat, v: nat)
    requires lo % WORD <= v <= RangeTop(lo, hi)
    ensures v - lo % WORD < WORD && RangeOf(lo, hi, v - lo % WORD) == v
  {
  }

  /** The documented bound `[lo, hi]` holds for every draw if and only if the lower end fits in
      64 bits and the range is not empty. The upper end may overflow: truncation only shrinks it. */
  lemma RangeBoundIffLowEndFits(lo: nat, hi: nat)
    ensures (forall draw: Word :: lo <= RangeOf(lo, hi, draw) <= hi) <==> lo < WORD && lo <= hi
  {
    if lo < WORD && lo <= hi {
      forall draw: Word ensures lo <= RangeOf(lo, hi, draw) <= hi { RangeWithin(lo, hi, draw); }
    } else {
      RangeAtZero(lo, hi);
      assert lo % WORD <= lo;
      assert !(lo <= RangeOf(lo, hi, 0) <= hi);
    }
  }

  lemma RangeWithin(lo: nat, hi: nat, draw: Word)
    requires lo < WORD && lo <= hi
    ensures lo <= RangeOf(lo, hi, draw) <= hi
  {
    RangeStaysInside(lo, hi, draw);
  }

  lemma RangeAtZero(lo: nat, hi: nat)
    ensures RangeOf(lo, hi, 0) == lo % WORD
  {
  }

  /** The bound fails when the lower end is 2^64 ns: it truncates to zero. */
  lemma RangeBoundCanFail()
    ensures RangeOf(WORD, WORD + 5, 0) == 0 < WORD
  {
    assert WORD % WORD == 0;
  }

  // ---- the object the scheduler holds

  class SplitMix64 {
    var state: Word

    constructor (seed: Word)
      ensures state == seed
    {
      state := seed;
    }

    /** Advances the state by one step and returns the scramble of the state before it. */
    method NextU64() returns (r: Word)
      modifies this
      ensures state == WrapAdd(old(state), GAMMA)
      ensures r == Mix64(old(state))
    {
      state := WrapAdd(state, GAMMA);
      var z := state;
      z := WrapMul(XorShift(z, 30), M1);
      z := WrapMul(XorShift(z, 27), M2);
      r := XorShift(z, 31);
    }

    /** Draws once and maps the draw into the range. */
    method RandomRange(lo: nat, hi: nat) returns (nanos: Word)
      modifies this
      ensures state == WrapAdd(old(state), GAMMA)
      ensures nanos == RangeOf(lo, hi, Mix64(old(state)))
    {
      var l, h := lo % WORD, hi % WORD;
      var draw := NextU64();
      var span := if h >= l then h - l else 0;
      nanos := WrapAdd(l, Offset(span, draw));
    }
  }
}
