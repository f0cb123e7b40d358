/** Which draw of its generator each turn of a worker's loop takes (src/runner.rs with src/trigger.rs). */
module Draws {
  import opened Words
  import Rng
  import Jitter
  import opened Schedule

  /** The time from `now` to `tick`, or none if it has passed. */
  function TimeTo(tick: nat, now: nat): nat { if tick <= now then 0 else tick - now }

  /** How many turns so far had something to draw. */
  function DrawsTaken(trigger: Trigger, fraction: Jitter.Fraction, entry: Loop, turns: seq<Turn>): nat {
    if turns == [] then 0
    else
      var n := |turns| - 1;
      var loop := Run(trigger, SplitMix(fraction), entry, turns[..n]).loop;
      DrawsTaken(trigger, fraction, entry, turns[..n])
      + (if !loop.stopped && Jitter.Window(fraction, TimeTo(loop.tick, loop.clock + turns[n].head)) > 0 then 1 else 0)
  }

  lemma NextPosition(fraction: Jitter.Fraction, seed: Word, m: nat, gap: nat)
    ensures SplitMix(fraction).next(gap, Rng.StateAfter(seed, m))
         == Rng.StateAfter(seed, if Jitter.Window(fraction, gap) > 0 then m + 1 else m)
  {
  }

  lemma StepPosition(trigger: Trigger, fraction: Jitter.Fraction, o: Outcome, u: Outcome, turn: Turn)
    requires u == Step(trigger, SplitMix(fraction), o, turn)
    ensures u.loop.rng
         == if o.loop.stopped then o.loop.rng
            else SplitMix(fraction).next(TimeTo(o.loop.tick, o.loop.clock + turn.head), o.loop.rng)
  {
  }

  /** The generator has advanced once for each turn that had something to draw, and no more. */
  lemma {:induction false} GeneratorPosition(trigger: Trigger, fraction: Jitter.Fraction, now: nat, seed: Word, turns: seq<Turn>)
    ensures
      var entry := Entry(trigger, now, seed);
      Run(trigger, SplitMix(fraction), entry, turns).loop.rng == Rng.StateAfter(seed, DrawsTaken(trigger, fraction, entry, turns))
  {
    if turns != [] {
      var n, entry := |turns| - 1, Entry(trigger, now, seed);
      GeneratorPosition(trigger, fraction, now, seed, turns[..n]);
      var o := Run(trigger, SplitMix(fraction), entry, turns[..n]);
      StepPosition(trigger, fraction, o, Run(trigger, SplitMix(fraction), entry, turns), turns[n]);
      NextPosition(fraction, seed, DrawsTaken(trigger, fraction, entry, turns[..n]), TimeTo(o.loop.tick, o.loop.clock + turns[n].head));
    }
  }

  /** The jitter of one turn: nothing for an empty window, and else the next draw modulo the window. */
  function JitterOf(fraction: Jitter.Fraction, seed: Word, drawn: nat, gap: nat): nat {
    var window := Jitter.Window(fraction, gap);
    if window == 0 then 0 else Rng.Draw(seed, drawn + 1) % (window % WORD + 1)
  }

  lemma DelayIsJitter(fraction: Jitter.Fraction, seed: Word, drawn: nat, gap: nat)
    ensures SplitMix(fraction).delay(gap, Rng.StateAfter(seed, drawn)) == JitterOf(fraction, seed, drawn, gap)
  {
    Jitter.SeedDelay(fraction, gap, Rng.StateAfter(seed, drawn));
  }

  lemma NextDelay(trigger: Trigger, fraction: Jitter.Fraction, now: nat, seed: Word, turns: seq<Turn>, gap: nat)
    ensures
      var entry := Entry(trigger, now, seed);
      SplitMix(fraction).delay(gap, Run(trigger, SplitMix(fraction), entry, turns).loop.rng)
      == JitterOf(fraction, seed, DrawsTaken(trigger, fraction, entry, turns), gap)
  {
    GeneratorPosition(trigger, fraction, now, seed, turns);
    DelayIsJitter(fraction, seed, DrawsTaken(trigger, fraction, Entry(trigger, now, seed), turns), gap);
  }

  /** How a turn with the given jitter takes the loop from `o` to `u`. A fire is planned at the tick plus
      the jitter; it starts when it wakes, not before it is planned; and it ends the turn. A signal leaves
      the tick and the fires. */
  ghost predicate TurnTakes(o: Outcome, u: Outcome, turn: Turn, jitter: nat) {
    var read, planned := o.loop.clock + turn.head, o.loop.tick + jitter;
    match turn
    case Timer(_, latency, duration) =>
      var woken := if planned <= read then read + latency else planned + latency;
      u.fires == o.fires + [Fire(o.loop.tick, planned, woken, woken + duration)] && u.loop.clock == woken + duration
    case Signal(_, wait, stop) =>
      u.fires == o.fires && u.loop.tick == o.loop.tick && u.loop.clock == read + wait && u.loop.stopped == stop
  }

  lemma StepTakes(trigger: Trigger, source: Source, o: Outcome, u: Outcome, turn: Turn, jitter: nat)
    requires !o.loop.stopped && u == Step(trigger, source, o, turn)
    requires jitter == source.delay(TimeTo(o.loop.tick, o.loop.clock + turn.head), o.loop.rng)
    ensures TurnTakes(o, u, turn, jitter)
  {
  }

  /** The last turn of any run that had not stopped, in its own terms: its jitter is the next draw of the
      worker's generator, folded into the window of the time left to the tick. */
  lemma TurnExactly(trigger: Trigger, fraction: Jitter.Fraction, now: nat, seed: Word, turns: seq<Turn>)
    requires turns != [] && !Run(trigger, SplitMix(fraction), Entry(trigger, now, seed), turns[..|turns| - 1]).loop.stopped
    ensures
      var n, entry := |turns| - 1, Entry(trigger, now, seed);
      var o, u := Run(trigger, SplitMix(fraction), entry, turns[..n]), Run(trigger, SplitMix(fraction), entry, turns);
      var gap := TimeTo(o.loop.tick, o.loop.clock + turns[n].head);
      TurnTakes(o, u, turns[n], JitterOf(fraction, seed, DrawsTaken(trigger, fraction, entry, turns[..n]), gap))
  {
    var n, source, entry := |turns| - 1, SplitMix(fraction), Entry(trigger, now, seed);
    var o, u := Run(trigger, source, entry, turns[..n]), Run(trigger, source, entry, turns);
    var gap := TimeTo(o.loop.tick, o.loop.clock + turns[n].head);
    NextDelay(trigger, fraction, now, seed, turns[..n], gap);
    StepTakes(trigger, source, o, u, turns[n], JitterOf(fraction, seed, DrawsTaken(trigger, fraction, entry, turns[..n]), gap));
  }
}
