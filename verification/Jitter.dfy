/** The full-jitter policy of src/trigger.rs. Durations are whole nanoseconds. */
module Jitter {
  import opened Words
  import opened Rng

  /** A jitter fraction; the public field also admits values above one. */
  type Fraction = f: real | f >= 0.0 witness 0.0

  /** Scaling a duration, rounded to the nearest nanosecond. */
  function Scaled(gap: nat, fraction: Fraction): nat {
    (gap as real * fraction + 0.5).Floor
  }

  /** The jitter window: the scaled gap, never more than the gap itself. */
  function Window(fraction: Fraction, gap: nat): (w: nat)
    ensures w <= gap
  {
    var scaled := Scaled(gap, fraction);
    if scaled <= gap then scaled else gap
  }

  lemma ScaleIsMonotone(a: real, b: real, f: real)
    requires 0.0 <= a <= b && f >= 0.0
    ensures a * f <= b * f
  {
  }

  lemma FloorIsMonotone(x: real, y: real)
    requires x <= y
    ensures x.Floor <= y.Floor
  {
  }

  /** A longer gap never has a shorter window. */
  lemma WindowIsMonotone(fraction: Fraction, gap: nat, longer: nat)
    requires gap <= longer
    ensures Window(fraction, gap) <= Window(fraction, longer)
  {
    ScaleIsMonotone(gap as real, longer as real, fraction);
    FloorIsMonotone(gap as real * fraction + 0.5, longer as real * fraction + 0.5);
  }

  /** For a fraction of at most one the window is the scaled gap, to the nearest nanosecond; for any
      greater fraction it is the gap. */
  lemma WindowIsScaledGap(fraction: Fraction, gap: nat)
    ensures fraction <= 1.0 ==> -0.5 < Window(fraction, gap) as real - gap as real * fraction <= 0.5
    ensures fraction >= 1.0 ==> Window(fraction, gap) == gap
  {
    if fraction <= 1.0 {
      ScaleIsMonotone(fraction, 1.0, gap as real);
    } else {
      ScaleIsMonotone(1.0, fraction, gap as real);
    }
  }

  /** The delay drawn for a gap by a generator in the given state. */
  function Delay(fraction: Fraction, gap: nat, state: Word): Word {
    var window := Window(fraction, gap);
    if window == 0 then 0 else RangeOf(0, window, Mix64(state))
  }

  /** The generator's state afterwards: an empty window takes no draw. */
  function StateNext(fraction: Fraction, gap: nat, state: Word): Word {
    if Window(fraction, gap) == 0 then state else WrapAdd(state, GAMMA)
  }

  /** `jitter`: the delay from the caller's generator, which it advances. */
  method DrawDelay(fraction: Fraction, gap: nat, rng: SplitMix64) returns (delay: Word)
    modifies rng
    ensures delay == Delay(fraction, gap, old(rng.state))
    ensures rng.state == StateNext(fraction, gap, old(rng.state))
    ensures rng.state == if Window(fraction, gap) == 0 then old(rng.state) else WrapAdd(old(rng.state), GAMMA)
    ensures delay <= Window(fraction, gap)
  {
    var window := Window(fraction, gap);
    if window == 0 {
      return 0;
    }
    DelayInWindow(fraction, gap, rng.state);
    delay := rng.RandomRange(0, window);
  }

  /** `jitter_seeded`: the delay a fresh generator draws. */
  method DrawDelaySeeded(fraction: Fraction, gap: nat, seed: Word) returns (delay: Word)
    ensures delay == Delay(fraction, gap, seed)
    ensures delay <= Window(fraction, gap) <= gap
  {
    var rng := new SplitMix64(seed);
    delay := DrawDelay(fraction, gap, rng);
  }

  /** The bound, for every gap and every state, even where the window overflows 64 bits. */
  lemma DelayInWindow(fraction: Fraction, gap: nat, state: Word)
    ensures Delay(fraction, gap, state) <= Window(fraction, gap) <= gap
  {
    RangeFromZero(Window(fraction, gap), Mix64(state));
  }

  lemma RangeFromZero(window: nat, draw: Word)
    ensures RangeOf(0, window, draw) <= window % WORD <= window
  {
  }

  /** Some seed makes `jitter_seeded` return `d`. */
  ghost predicate Produced(fraction: Fraction, gap: nat, d: nat) {
    exists seed: Word :: Delay(fraction, gap, seed) == d
  }

  /** The delays some seed produces are exactly those up to the window modulo 2^64. */
  lemma DelaysProduced(fraction: Fraction, gap: nat, d: nat)
    ensures Produced(fraction, gap, d) <==> d <= Window(fraction, gap) % WORD
  {
    var window := Window(fraction, gap);
    if d <= window % WORD {
      var seed := Unmix64(d);
      if window > 0 {
        UnmixThenMix(d);
        RangeIsCovered(0, window, d);
      }
      assert Delay(fraction, gap, seed) == d;
    } else {
      forall seed: Word ensures Delay(fraction, gap, seed) != d {
        RangeFromZero(window, Mix64(seed));
      }
    }
  }

  /** The whole documented range `[0, window]` is produced if and only if the window fits in 64 bits. */
  lemma WholeWindowIffItFits(fraction: Fraction, gap: nat)
    ensures (forall d: nat :: d <= Window(fraction, gap) ==> Produced(fraction, gap, d))
            <==> Window(fraction, gap) < WORD
  {
    forall d: nat ensures Produced(fraction, gap, d) <==> d <= Window(fraction, gap) % WORD {
      DelaysProduced(fraction, gap, d);
    }
    if Window(fraction, gap) >= WORD {
      assert !Produced(fraction, gap, Window(fraction, gap));
    }
  }

  // ---- fairness: how many seeds produce each delay

  /** The seeds for which `jitter_seeded` returns `d`. */
  ghost function SeedsFor(fraction: Fraction, gap: nat, d: nat): set<Word> {
    set seed: Word | seed < WORD && Delay(fraction, gap, seed) == d
  }

  /** The numbers below `bound` with residue `d` modulo `m`. */
  ghost function Residues(m: nat, d: nat, bound: nat): set<nat>
    requires m > 0
  {
    set k: nat | k < bound && k % m == d
  }

  /** How many of the first `total` numbers leave the remainder `d` modulo `m`. */
  function Quota(total: nat, m: nat, d: nat): nat
    requires d < m <= total
  {
    (total - 1 - d) / m + 1
  }

  lemma {:induction false} ResidueCount(m: nat, d: nat, bound: nat)
    requires d < m
    ensures |Residues(m, d, bound)| == if bound <= d then 0 else (bound - 1 - d) / m + 1
  {
    if bound == 0 {
      assert Residues(m, d, bound) == {};
    } else {
      var k := bound - 1;
      ResidueCount(m, d, k);
      DivUnique(d, m, 0, d);
      if k < d {
        DivUnique(k, m, 0, k);
        assert Residues(m, d, bound) == Residues(m, d, k);
      } else if k % m == d {
        assert Residues(m, d, bound) == Residues(m, d, k) + {k};
        DivUnique(0, m, 0, 0);
        if k > d { LastOfBlock(m, d, k); }
      } else {
        assert Residues(m, d, bound) == Residues(m, d, k);
        SameBlock(m, d, k);
      }
    }
  }

  lemma LastOfBlock(m: nat, d: nat, k: nat)
    requires d < m && d < k && k % m == d
    ensures (k - d) / m == (k - 1 - d) / m + 1
  {
    var q := k / m;
    assert k - d == q * m;
    DivUnique(k - d, m, q, 0);
    BlockStart(q, m);
    DivUnique(k - 1 - d, m, q - 1, m - 1);
  }

  lemma BlockStart(q: int, m: int)
    ensures q * m - 1 == (q - 1) * m + (m - 1)
  {
  }

  lemma SameBlock(m: nat, d: nat, k: nat)
    requires d < m && d < k && k % m != d
    ensures (k - d) / m == (k - 1 - d) / m
  {
    var q, r := (k - 1 - d) / m, (k - 1 - d) % m;
    assert k - 1 - d == q * m + r;
    assert r != m - 1 by {
      BlockStart(q + 1, m);
      if k == (q + 1) * m + d { DivUnique(k, m, q + 1, d); }
    }
    DivUnique(k - d, m, q, r + 1);
  }

  lemma DivUnique(x: int, m: int, q: int, r: int)
    requires 0 <= r < m && x == q * m + r
    ensures x / m == q && x % m == r
  {
    var e := x / m - q;
    assert e * m == r - x % m;
    MulSigns(e, m);
  }

  lemma MulSigns(e: int, m: int)
    requires m > 0
    ensures e >= 1 ==> e * m >= m
    ensures e <= -1 ==> e * m <= -m
    ensures e >= 2 ==> e * m >= 2 * m
    ensures e <= -2 ==> e * m <= -2 * m
  {
  }

  /** A bijection renames words without losing any: a set and its preimage have equal size. */
  lemma {:induction false} PreimageSize(mix: Word -> Word, unmix: Word -> Word, draws: set<Word>, seeds: set<Word>)
    requires forall x: Word :: unmix(mix(x)) == x && mix(unmix(x)) == x
    requires forall k :: k in draws ==> unmix(k) in seeds
    requires forall s :: s in seeds ==> mix(s) in draws
    ensures |draws| == |seeds|
    decreases draws
  {
    if draws == {} {
      assert seeds == {};
    } else {
      var k :| k in draws;
      PreimageSize(mix, unmix, draws - {k}, seeds - {unmix(k)});
    }
  }

  /** The same count for every bijection of words. */
  lemma SeedsPerResidue(mix: Word -> Word, unmix: Word -> Word, m: nat, d: nat)
    requires forall x: Word :: unmix(mix(x)) == x && mix(unmix(x)) == x
    requires d < m <= WORD
    ensures |set s: Word | s < WORD && mix(s) % m == d| == Quota(WORD, m, d)
  {
    var seeds := set s: Word | s < WORD && mix(s) % m == d;
    var draws: set<Word> := set k: Word | k < WORD && k % m == d;
    PreimageSize(mix, unmix, draws, seeds);
    assert draws == Residues(m, d, WORD);
    ResidueCount(m, d, WORD);
  }

  /** The number of delays: the window may overflow 64 bits, and then only its remainder counts. */
  function Choices(fraction: Fraction, gap: nat): nat { Window(fraction, gap) % WORD + 1 }

  /** How many seeds give one delay, exactly, for every gap. */
  lemma SeedsPerDelay(fraction: Fraction, gap: nat, d: nat)
    requires d < Choices(fraction, gap)
    ensures |SeedsFor(fraction, gap, d)| == Quota(WORD, Choices(fraction, gap), d)
  {
    SeedsAreResidues(fraction, gap, d);
    SeedsPerMixedResidue(Choices(fraction, gap), d);
  }

  lemma SeedsPerMixedResidue(m: nat, d: nat)
    requires d < m <= WORD
    ensures |set s: Word | s < WORD && Mix64(s) % m == d| == Quota(WORD, m, d)
  {
    var mix: Word -> Word, unmix: Word -> Word := x => Mix64(x), x => Unmix64(x);
    forall x: Word ensures unmix(mix(x)) == x && mix(unmix(x)) == x { MixIsBijective(x); }
    SeedsPerResidue(mix, unmix, m, d);
    assert (set s: Word | s < WORD && Mix64(s) % m == d) == (set s: Word | s < WORD && mix(s) % m == d);
  }

  lemma SeedsAreResidues(fraction: Fraction, gap: nat, d: nat)
    ensures SeedsFor(fraction, gap, d) == set s: Word | s < WORD && Mix64(s) % Choices(fraction, gap) == d
  {
    forall s: Word ensures Delay(fraction, gap, s) == Mix64(s) % Choices(fraction, gap) { SeedDelay(fraction, gap, s); }
  }

  /** The delay is the draw modulo the number of delays, also where no draw is taken. */
  lemma SeedDelay(fraction: Fraction, gap: nat, s: Word)
    ensures Delay(fraction, gap, s) == Mix64(s) % Choices(fraction, gap)
  {
    DelayIsResidue(Window(fraction, gap), Mix64(s));
  }

  lemma DelayIsResidue(window: nat, draw: Word)
    ensures RangeOf(0, window, draw) == draw % (window % WORD + 1)
  {
  }

  /** Fairness, for every gap: no delay up to the window modulo 2^64 is missed, and none is favoured over
      another by more than one seed out of 2^64. No other delay is produced, by `DelaysProduced`. */
  lemma JitterIsFair(fraction: Fraction, gap: nat, d: nat, e: nat)
    requires d <= Window(fraction, gap) % WORD && e <= Window(fraction, gap) % WORD
    ensures |SeedsFor(fraction, gap, d)| >= 1
    ensures -1 <= |SeedsFor(fraction, gap, d)| - |SeedsFor(fraction, gap, e)| <= 1
  {
    SeedsPerDelay(fraction, gap, d);
    SeedsPerDelay(fraction, gap, e);
    QuotasClose(WORD, Choices(fraction, gap), d, e);
  }

  lemma QuotasClose(total: nat, m: nat, d: nat, e: nat)
    requires d < m <= total && e < m
    ensures Quota(total, m, d) >= 1
    ensures -1 <= Quota(total, m, d) - Quota(total, m, e) <= 1
  {
    QuotientsClose(total - 1 - d, total - 1 - e, m);
  }

  lemma QuotientsClose(x: nat, y: nat, m: nat)
    requires x < y + m && y < x + m
    ensures -1 <= x / m - y / m <= 1
  {
    var e := x / m - y / m;
    assert e * m == (x - y) - (x % m - y % m);
    MulSigns(e, m);
  }
}
