/** The seed of a worker's jitter generator (src/runner.rs): the supervisor's seed combined with a hash of
    the worker's name. The hasher is keyed at random for each run of the loop, so the hash is any word. */
module Seeding {
  import opened Words
  import opened Rng
  import opened Jitter
  import opened Schedule

  function EffectiveSeed(seed: Word, nameHash: Word): (r: Word)
    ensures Xor(seed, r) == nameHash
  {
    UnseedSeed(seed, nameHash);
    XorWord(seed, nameHash);
    Xor(seed, nameHash)
  }

  lemma XorWord(a: Word, b: Word)
    ensures Xor(a, b) < WORD
  {
    WordIsPow2();
    XorBound(a, b, 64);
  }

  lemma UnseedSeed(seed: Word, w: Word)
    ensures Xor(seed, Xor(seed, w)) == w
  {
    XorAssoc(seed, seed, w);
    XorSelf(seed);
    XorZero(w);
  }

  /** With one seed, equal hashes give equal generators, and only they do. */
  lemma EffectiveSeedsDiffer(seed: Word, h: Word, g: Word)
    ensures EffectiveSeed(seed, h) == EffectiveSeed(seed, g) <==> h == g
  {
  }

  lemma {:induction false} StatesDiffer(s: Word, t: Word, n: nat)
    ensures StateAfter(s, n) == StateAfter(t, n) <==> s == t
  {
    if n > 0 {
      StatesDiffer(s, t, n - 1);
      SameStep(StateAfter(s, n - 1), StateAfter(t, n - 1));
    }
  }

  lemma SameStep(s: Word, t: Word)
    ensures WrapAdd(s, GAMMA) == WrapAdd(t, GAMMA) <==> s == t
  {
  }

  /** Two runs with one seed agree in their n-th draw if and only if the name hashes agree; then they
      agree in all, and else in none. */
  lemma DrawsReproducedIffHashesAgree(seed: Word, h: Word, g: Word, n: nat)
    requires n >= 1
    ensures Draw(EffectiveSeed(seed, h), n) == Draw(EffectiveSeed(seed, g), n) <==> h == g
  {
    StatesDiffer(EffectiveSeed(seed, h), EffectiveSeed(seed, g), n - 1);
    MixIsInjective(StateAfter(EffectiveSeed(seed, h), n - 1), StateAfter(EffectiveSeed(seed, g), n - 1));
    EffectiveSeedsDiffer(seed, h, g);
  }

  // ---- delays

  /** A gap whose window is the widest that fits in 64 bits. */
  lemma WidestWindow(fraction: Fraction) returns (gap: nat)
    requires fraction > 0.0
    ensures Window(fraction, gap) == WORD - 1 <= gap
  {
    if fraction >= 1.0 {
      gap := WORD - 1;
      ScaleIsMonotone(1.0, fraction, (WORD - 1) as real);
    } else {
      var target := (WORD - 1) as real - 0.5;
      var g := -((-(target / fraction)).Floor);
      GapScales(fraction, target, g);
      gap := g;
    }
  }

  /** The least gap that scales to `target` overshoots it by less than one. */
  lemma GapScales(fraction: Fraction, target: real, g: int)
    requires 0.0 < fraction < 1.0 && target > 0.0 && g == -((-(target / fraction)).Floor)
    ensures g >= 0 && target <= g as real * fraction < target + 1.0 && target <= g as real
  {
    var x := target / fraction;
    assert x * fraction == target;
    assert x <= g as real < x + 1.0;
    ScaleIsMonotone(x, g as real, fraction);
    ScaleIsMonotone(g as real, x + 1.0, fraction);
    assert (x + 1.0) * fraction == target + fraction;
    ScaleIsMonotone(fraction, 1.0, g as real);
  }

  /** With the widest window the delay is the draw itself. */
  lemma WidestDelay(fraction: Fraction, gap: nat, state: Word)
    requires Window(fraction, gap) == WORD - 1
    ensures Delay(fraction, gap, state) == Mix64(state)
  {
    WidestRange(Mix64(state));
  }

  lemma WidestRange(draw: Word)
    ensures RangeOf(0, WORD - 1, draw) == draw
  {
  }

  /** A seeded policy that jitters at all reproduces every delay if and only if the hashes agree. */
  lemma DelaysReproducedIffHashesAgree(fraction: Fraction, seed: Word, h: Word, g: Word)
    requires fraction > 0.0
    ensures (forall gap: nat :: Delay(fraction, gap, EffectiveSeed(seed, h)) == Delay(fraction, gap, EffectiveSeed(seed, g)))
       <==> h == g
  {
    var gap := WidestWindow(fraction);
    WidestDelaysDiffer(fraction, gap, seed, h, g);
  }

  lemma WidestDelaysDiffer(fraction: Fraction, gap: nat, seed: Word, h: Word, g: Word)
    requires Window(fraction, gap) == WORD - 1
    ensures Delay(fraction, gap, EffectiveSeed(seed, h)) == Delay(fraction, gap, EffectiveSeed(seed, g)) <==> h == g
  {
    WidestDelay(fraction, gap, EffectiveSeed(seed, h));
    WidestDelay(fraction, gap, EffectiveSeed(seed, g));
    MixIsInjective(EffectiveSeed(seed, h), EffectiveSeed(seed, g));
    EffectiveSeedsDiffer(seed, h, g);
  }

  /** For one gap: the seed alone decides the delay if and only if there is nothing to decide. */
  lemma DelayDecidedIffNoChoice(fraction: Fraction, gap: nat, seed: Word)
    ensures (forall h: Word, g: Word :: Delay(fraction, gap, EffectiveSeed(seed, h)) == Delay(fraction, gap, EffectiveSeed(seed, g)))
       <==> Window(fraction, gap) % WORD == 0
  {
    if Window(fraction, gap) % WORD == 0 {
      forall h: Word ensures Delay(fraction, gap, EffectiveSeed(seed, h)) == 0 {
        SeedDelay(fraction, gap, EffectiveSeed(seed, h));
      }
    } else {
      DelaysProduced(fraction, gap, 0);
      DelaysProduced(fraction, gap, 1);
      var s: Word :| Delay(fraction, gap, s) == 0;
      var t: Word :| Delay(fraction, gap, t) == 1;
      HashFor(seed, s);
      HashFor(seed, t);
      var h, g := EffectiveSeed(seed, s), EffectiveSeed(seed, t);
      assert Delay(fraction, gap, EffectiveSeed(seed, h)) != Delay(fraction, gap, EffectiveSeed(seed, g));
    }
  }

  /** Every generator is reached by some hash. */
  lemma HashFor(seed: Word, s: Word)
    ensures EffectiveSeed(seed, EffectiveSeed(seed, s)) == s
  {
  }

  /** The hashes for which a run with this seed delays by `d`. */
  ghost function HashesFor(fraction: Fraction, gap: nat, seed: Word, d: nat): set<Word> {
    set h: Word | h < WORD && Delay(fraction, gap, EffectiveSeed(seed, h)) == d
  }

  /** Whatever the seed, each delay is given by as many hashes as there are seeds that give it: seeding
      leaves the delay as open as it was. */
  lemma SeedFixesNothing(fraction: Fraction, gap: nat, seed: Word, d: nat)
    ensures |HashesFor(fraction, gap, seed, d)| == |SeedsFor(fraction, gap, d)|
  {
    var flip: Word -> Word := x => EffectiveSeed(seed, x);
    forall x: Word ensures flip(flip(x)) == x { HashFor(seed, x); }
    PreimageSize(flip, flip, SeedsFor(fraction, gap, d), HashesFor(fraction, gap, seed, d));
  }

  // ---- whole runs

  /** The fires of a worker whose generator starts with the given effective seed. */
  function SeededFires(trigger: Trigger, fraction: Fraction, now: nat, seed: Word, turns: seq<Turn>): seq<Fire> {
    Run(trigger, SplitMix(fraction), Entry(trigger, now, seed), turns).fires
  }

  /** The documented property: the same seed and the same job give the same fires in the same
      circumstances, whichever they are. */
  ghost predicate Reproduced(fraction: Fraction, seed: Word, h: Word, g: Word) {
    forall trigger: Trigger, now: nat, turns: seq<Turn> ::
      SeededFires(trigger, fraction, now, EffectiveSeed(seed, h), turns)
      == SeededFires(trigger, fraction, now, EffectiveSeed(seed, g), turns)
  }

  /** Without jitter the generator does not matter. */
  lemma {:induction false} JitterlessRunsAgree(trigger: Trigger, source: Source, entry: Loop, rng: Word, turns: seq<Turn>)
    requires Jitterless(source)
    ensures
      var o, u := Run(trigger, source, entry, turns), Run(trigger, source, entry.(rng := rng), turns);
      o.fires == u.fires && o.loop.(rng := 0) == u.loop.(rng := 0)
  {
    if turns != [] {
      var n := |turns| - 1;
      JitterlessRunsAgree(trigger, source, entry, rng, turns[..n]);
      var o := Run(trigger, source, entry, turns[..n]);
      JitterlessStep(trigger, source, o, Run(trigger, source, entry.(rng := rng), turns[..n]), turns[n]);
    }
  }

  lemma JitterlessStep(trigger: Trigger, source: Source, o: Outcome, u: Outcome, turn: Turn)
    requires Jitterless(source) && o.fires == u.fires && o.loop.(rng := 0) == u.loop.(rng := 0)
    ensures
      var o', u' := Step(trigger, source, o, turn), Step(trigger, source, u, turn);
      o'.fires == u'.fires && o'.loop.(rng := 0) == u'.loop.(rng := 0)
  {
  }

  /** The first fire of an interval that wakes on time. */
  lemma FirstFire(every: nat, fraction: Fraction, seed: Word)
    requires every >= MIN_INTERVAL
    ensures
      var fires := SeededFires(Interval(every), fraction, 0, seed, [Timer(0, 0, 0)]);
      |fires| == 1 && fires[0].fireAt == every + Delay(fraction, every, seed)
  {
    assert [Timer(0, 0, 0)][..0] == [];
    var entry := Entry(Interval(every), 0, seed);
    assert Run(Interval(every), SplitMix(fraction), entry, []) == Outcome(entry, []);
  }

  /** A seeded supervisor reproduces a worker's run if and only if jitter is off or the random hasher
      happens to give the worker's name the same hash again. */
  lemma RunsReproducedIffHashesAgree(fraction: Fraction, seed: Word, h: Word, g: Word)
    ensures Reproduced(fraction, seed, h, g) <==> fraction == 0.0 || h == g
  {
    var s, t := EffectiveSeed(seed, h), EffectiveSeed(seed, g);
    if fraction == 0.0 {
      ZeroFractionIsJitterless();
      forall trigger: Trigger, now: nat, turns: seq<Turn>
        ensures SeededFires(trigger, fraction, now, s, turns) == SeededFires(trigger, fraction, now, t, turns)
      {
        JitterlessRunsAgree(trigger, SplitMix(fraction), Entry(trigger, now, s), t, turns);
      }
    } else if h != g {
      var every := WidestWindow(fraction);
      FirstFire(every, fraction, s);
      FirstFire(every, fraction, t);
      WidestDelaysDiffer(fraction, every, seed, h, g);
      var turns, trigger := [Timer(0, 0, 0)], Interval(every);
      assert SeededFires(trigger, fraction, 0, s, turns) != SeededFires(trigger, fraction, 0, t, turns);
    }
  }

  /** Two runs with one seed, at the default fraction, whose delays differ. */
  lemma SeededDelaysCanDiffer(seed: Word)
    ensures Delay(0.2, 5 * (WORD - 1), EffectiveSeed(seed, 0)) != Delay(0.2, 5 * (WORD - 1), EffectiveSeed(seed, 1))
  {
    var gap := 5 * (WORD - 1);
    assert Window(0.2, gap) == WORD - 1;
    WidestDelaysDiffer(0.2, gap, seed, 0, 1);
  }
}
