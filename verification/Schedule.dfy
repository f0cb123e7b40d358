/** The job loop of src/runner.rs: sleep to the next jittered tick, fire, advance the tick.

    Times are nanoseconds on one clock that never runs backwards. What the loop cannot choose is an
    input: how long each turn takes to reach the clock reading, how late it wakes, how long the fire
    runs, and whether the shutdown channel reports a change first. */
module Schedule {
  import opened Options
  import opened Words
  import Rng
  import Jitter

  /** The smallest interval honoured, 1 ms, and the wait of an exhausted schedule, 60 s. */
  const MIN_INTERVAL: nat := 1_000_000
  const SCHEDULE_PARK: nat := 60_000_000_000

  /** What starts a job. A cron expression is known only by the next tick it computes. */
  datatype Trigger = Interval(every: nat) | Cron(tickAfter: nat -> Option<nat>)

  function Max(a: nat, b: nat): nat { if a >= b then a else b }

  function Period(every: nat): nat { Max(every, MIN_INTERVAL) }

  /** The next un-jittered tick after `after`. */
  function NextFireAfter(trigger: Trigger, after: nat): Option<nat> {
    match trigger
    case Interval(every) => Some(after + Period(every))
    case Cron(tickAfter) => tickAfter(after)
  }

  function FirstTick(trigger: Trigger, now: nat): nat {
    match NextFireAfter(trigger, now)
    case Some(tick) => tick
    case None => now + SCHEDULE_PARK
  }

  function NextTickOrPark(trigger: Trigger, tick: nat, completed: nat): nat {
    match NextFireAfter(trigger, tick)
    case Some(next) => next
    case None => completed + SCHEDULE_PARK
  }

  /** The tick after a fire for `tick` that finished at `completed`: coalescing re-anchors it. */
  function Advance(trigger: Trigger, tick: nat, completed: nat): nat {
    var next := NextTickOrPark(trigger, tick, completed);
    if completed >= next then completed else next
  }

  // ---- one turn of the loop

  /** Which arm of the select wins. `head` is the time from the previous turn to the clock reading. */
  datatype Turn =
    | Timer(head: nat, latency: nat, duration: nat)
    | Signal(head: nat, wait: nat, stop: bool)

  /** One fire of the loop: its un-jittered tick, the jittered time, when it started and finished. */
  datatype Fire = Fire(tick: nat, fireAt: nat, start: nat, completed: nat)

  datatype Loop = Loop(clock: nat, tick: nat, rng: Word, stopped: bool)

  /** What the loop draws its jitter from: the delay for a gap and a generator state, and the state
      afterwards. */
  datatype Source = Source(delay: (nat, Word) -> nat, next: (nat, Word) -> Word)

  /** The source the runner uses: the jitter policy over its own generator. */
  function SplitMix(fraction: Jitter.Fraction): Source {
    Source((gap, state) => Jitter.Delay(fraction, gap, state), (gap, state) => Jitter.StateNext(fraction, gap, state))
  }

  /** A delay never exceeds the gap it is drawn for. */
  ghost predicate Bounded(source: Source) {
    forall gap: nat, state: Word :: source.delay(gap, state) <= gap
  }

  lemma SplitMixIsBounded(fraction: Jitter.Fraction)
    ensures Bounded(SplitMix(fraction))
  {
    forall gap: nat, state: Word ensures SplitMix(fraction).delay(gap, state) <= gap {
      Jitter.DelayInWindow(fraction, gap, state);
    }
  }

  datatype Outcome = Outcome(loop: Loop, fires: seq<Fire>)

  function Gap(loop: Loop, head: nat): nat {
    if loop.tick >= loop.clock + head then loop.tick - (loop.clock + head) else 0
  }

  function FireOf(source: Source, loop: Loop, turn: Turn): Fire
    requires turn.Timer?
  {
    var fireAt := loop.tick + source.delay(Gap(loop, turn.head), loop.rng);
    var start := Max(loop.clock + turn.head, fireAt) + turn.latency;
    Fire(loop.tick, fireAt, start, start + turn.duration)
  }

  function Step(trigger: Trigger, source: Source, o: Outcome, turn: Turn): Outcome {
    if o.loop.stopped then o else
      var rng := source.next(Gap(o.loop, turn.head), o.loop.rng);
      match turn
      case Timer(_, _, _) =>
        var fire := FireOf(source, o.loop, turn);
        Outcome(Loop(fire.completed, Advance(trigger, fire.tick, fire.completed), rng, false), o.fires + [fire])
      case Signal(head, wait, stop) =>
        Outcome(Loop(o.loop.clock + head + wait, o.loop.tick, rng, stop), o.fires)
  }

  /** The state when the loop is entered. */
  function Entry(trigger: Trigger, now: nat, seed: Word): Loop {
    Loop(now, FirstTick(trigger, now), seed, false)
  }

  /** The loop after any number of turns. */
  function Run(trigger: Trigger, source: Source, entry: Loop, turns: seq<Turn>): Outcome {
    if turns == [] then Outcome(entry, [])
    else Step(trigger, source, Run(trigger, source, entry, turns[..|turns| - 1]), turns[|turns| - 1])
  }

  /** One turn: draw the jitter, then follow whichever arm of the select won. */
  method TakeTurn(trigger: Trigger, fraction: Jitter.Fraction, rng: Rng.SplitMix64, clock: nat, tick: nat, turn: Turn)
    returns (clock': nat, tick': nat, stopped: bool, fired: seq<Fire>)
    modifies rng
    ensures Outcome(Loop(clock', tick', rng.state, stopped), fired)
         == Step(trigger, SplitMix(fraction), Outcome(Loop(clock, tick, old(rng.state), false), []), turn)
  {
    ghost var loop := Loop(clock, tick, rng.state, false);
    var now := clock + turn.head;
    var gap := if tick >= now then tick - now else 0;
    var delay := Jitter.DrawDelay(fraction, gap, rng);
    assert gap == Gap(loop, turn.head);
    clock', tick', stopped, fired := FollowArm(trigger, SplitMix(fraction), loop, now, tick, delay, turn);
  }

  /** The select after the draw: a signal ends or repeats the wait, the timer fires. */
  method FollowArm(trigger: Trigger, ghost source: Source, ghost loop: Loop, now: nat, tick: nat, delay: nat, turn: Turn)
    returns (clock': nat, tick': nat, stopped: bool, fired: seq<Fire>)
    requires !loop.stopped && now == loop.clock + turn.head && tick == loop.tick
    requires delay == source.delay(Gap(loop, turn.head), loop.rng)
    ensures Outcome(Loop(clock', tick', source.next(Gap(loop, turn.head), loop.rng), stopped), fired)
         == Step(trigger, source, Outcome(loop, []), turn)
  {
    if turn.Signal? {
      clock', tick', stopped, fired := now + turn.wait, tick, turn.stop, [];
    } else {
      var fire;
      fire, tick' := FireAtTick(trigger, tick, tick + delay, now, turn.latency, turn.duration);
      clock', stopped, fired := fire.completed, false, [fire];
    }
  }

  /** The timer arm: wake, fire, then coalesce the next tick with the completion. */
  method FireAtTick(trigger: Trigger, tick: nat, fireAt: nat, now: nat, latency: nat, duration: nat)
    returns (fire: Fire, tick': nat)
    ensures fire.tick == tick && fire.fireAt == fireAt
    ensures fire.start == now + latency || fire.start == fireAt + latency
    ensures now + latency <= fire.start && fireAt + latency <= fire.start && fire.completed - fire.start == duration
    ensures tick' == Advance(trigger, tick, fire.completed) >= fire.completed
  {
    var start := Max(now, fireAt) + latency;
    var completed := start + duration;
    fire := Fire(tick, fireAt, start, completed);
    tick' := NextTickOrPark(trigger, tick, completed);
    if completed >= tick' {
      tick' := completed;
    }
  }

  /** The loop itself, updating its tick and drawing from the generator it owns. */
  method RunLoop(trigger: Trigger, fraction: Jitter.Fraction, now: nat, rng: Rng.SplitMix64, turns: seq<Turn>)
    returns (fires: seq<Fire>, tick: nat, clock: nat)
    modifies rng
    ensures var o := Run(trigger, SplitMix(fraction), Entry(trigger, now, old(rng.state)), turns);
      fires == o.fires && tick == o.loop.tick && clock == o.loop.clock && rng.state == o.loop.rng
  {
    ghost var entry := Entry(trigger, now, rng.state);
    tick, clock, fires := FirstTick(trigger, now), now, [];
    var i, stopped := 0, false;
    while i < |turns| && !stopped
      invariant 0 <= i <= |turns|
      invariant Run(trigger, SplitMix(fraction), entry, turns[..i]) == Outcome(Loop(clock, tick, rng.state, stopped), fires)
    {
      ghost var loop := Loop(clock, tick, rng.state, false);
      assert turns[..i + 1] == turns[..i] + [turns[i]];
      RunAppend(trigger, SplitMix(fraction), entry, turns[..i], turns[i]);
      var fired;
      clock, tick, stopped, fired := TakeTurn(trigger, fraction, rng, clock, tick, turns[i]);
      StepAppends(trigger, SplitMix(fraction), loop, fires, turns[i]);
      fires := fires + fired;
      i := i + 1;
    }
    StoppedStaysStopped(trigger, SplitMix(fraction), entry, turns, i);
  }

  lemma StepAppends(trigger: Trigger, source: Source, loop: Loop, fires: seq<Fire>, turn: Turn)
    ensures var o := Step(trigger, source, Outcome(loop, []), turn);
      Step(trigger, source, Outcome(loop, fires), turn) == Outcome(o.loop, fires + o.fires)
  {
  }

  lemma {:induction false} StoppedStaysStopped(trigger: Trigger, source: Source, entry: Loop, turns: seq<Turn>, i: nat)
    requires i <= |turns|
    requires i == |turns| || Run(trigger, source, entry, turns[..i]).loop.stopped
    ensures Run(trigger, source, entry, turns) == Run(trigger, source, entry, turns[..i])
  {
    if i == |turns| {
      assert turns[..i] == turns;
    } else {
      var init := turns[..|turns| - 1];
      assert init[..i] == turns[..i];
      StoppedStaysStopped(trigger, source, entry, init, i);
    }
  }

  // ---- what every run's fires have in common

  /** The fires of a run that entered with `tick0` and is now at `tick`. */
  ghost predicate Chained(trigger: Trigger, tick0: nat, fires: seq<Fire>, tick: nat)
    decreases |fires|
  {
    if fires == [] then tick == tick0
    else
      var n := |fires| - 1;
      && Chained(trigger, tick0, fires[..n], fires[n].tick)
      && fires[n].tick <= fires[n].fireAt <= fires[n].start <= fires[n].completed
      && tick == Advance(trigger, fires[n].tick, fires[n].completed)
      && (n > 0 ==> fires[n - 1].completed <= fires[n].start)
      && (n > 0 && fires[n].tick <= fires[n - 1].completed ==> fires[n].fireAt == fires[n].tick)
  }

  /** The fires so far are chained, and the clock has passed the last completion. */
  ghost predicate ChainedTo(trigger: Trigger, tick0: nat, o: Outcome) {
    && Chained(trigger, tick0, o.fires, o.loop.tick)
    && (|o.fires| > 0 ==> o.fires[|o.fires| - 1].completed <= o.loop.clock)
  }

  lemma StepKeepsChained(trigger: Trigger, source: Source, tick0: nat, o: Outcome, turn: Turn)
    requires Bounded(source) && ChainedTo(trigger, tick0, o)
    ensures ChainedTo(trigger, tick0, Step(trigger, source, o, turn))
  {
    if !o.loop.stopped && turn.Timer? {
      var fire := FireOf(source, o.loop, turn);
      var fires := o.fires + [fire];
      assert fires[..|fires| - 1] == o.fires;
      var gap := Gap(o.loop, turn.head);
      assert source.delay(gap, o.loop.rng) <= gap;
    }
  }

  /** Every run's fires are chained, and the clock has passed the last completion. */
  lemma {:induction false} RunIsChained(trigger: Trigger, source: Source, entry: Loop, turns: seq<Turn>)
    requires Bounded(source)
    ensures ChainedTo(trigger, entry.tick, Run(trigger, source, entry, turns))
  {
    if turns != [] {
      var n := |turns| - 1;
      RunIsChained(trigger, source, entry, turns[..n]);
      StepKeepsChained(trigger, source, entry.tick, Run(trigger, source, entry, turns[..n]), turns[n]);
    }
  }

  lemma {:induction false} ChainedPrefix(trigger: Trigger, tick0: nat, fires: seq<Fire>, tick: nat, k: nat)
    requires Chained(trigger, tick0, fires, tick) && k < |fires|
    ensures Chained(trigger, tick0, fires[..k], fires[k].tick)
    ensures fires[k].tick <= fires[k].fireAt <= fires[k].start <= fires[k].completed
    ensures k > 0 ==> fires[k - 1].completed <= fires[k].start
    ensures k > 0 && fires[k].tick <= fires[k - 1].completed ==> fires[k].fireAt == fires[k].tick
    ensures k + 1 < |fires| ==> fires[k + 1].tick == Advance(trigger, fires[k].tick, fires[k].completed)
    decreases |fires|
  {
    var n := |fires| - 1;
    if k < n {
      assert fires[..n][..k] == fires[..k];
      ChainedPrefix(trigger, tick0, fires[..n], fires[n].tick, k);
    }
  }

  // ---- the closed form of the tick

  /** The time `k` periods after `t`. */
  function Later(t: nat, k: nat, period: nat): nat { t + k * period }

  lemma LaterStep(t: nat, k: nat, period: nat)
    ensures Later(t, 0, period) == t
    ensures Later(t, k + 1, period) == Later(t, k, period) + period
  {
  }

  /** `tick` is the largest of `tick0 + n*I` and `completed_i + (n - 1 - i)*I` over the n fires. */
  ghost predicate IsClosedForm(tick0: nat, fires: seq<Fire>, period: nat, tick: nat) {
    var n := |fires|;
    && tick >= Later(tick0, n, period)
    && (forall i :: 0 <= i < n ==> tick >= Later(fires[i].completed, n - 1 - i, period))
    && (tick == Later(tick0, n, period)
        || exists i :: 0 <= i < n && tick == Later(fires[i].completed, n - 1 - i, period))
  }

  lemma {:induction false} ChainClosedForm(every: nat, tick0: nat, fires: seq<Fire>, tick: nat)
    requires Chained(Interval(every), tick0, fires, tick)
    ensures IsClosedForm(tick0, fires, Period(every), tick)
    decreases |fires|
  {
    var p := Period(every);
    if fires == [] {
      LaterStep(tick0, 0, p);
    } else {
      var n := |fires| - 1;
      var init, last := fires[..n], fires[n];
      ChainClosedForm(every, tick0, init, last.tick);
      LaterStep(tick0, n, p);
      LaterStep(last.completed, 0, p);
      forall i | 0 <= i < n
        ensures Later(fires[i].completed, n - i, p) == Later(init[i].completed, n - 1 - i, p) + p
      {
        LaterStep(fires[i].completed, n - 1 - i, p);
      }
      if last.completed < last.tick + p && last.tick != Later(tick0, n, p) {
        var i :| 0 <= i < n && last.tick == Later(init[i].completed, n - 1 - i, p);
        assert tick == Later(fires[i].completed, n - i, p);
      }
    }
  }

  /** The schedule loop has a closed form. No jitter term occurs in it: jitter never accumulates. */
  lemma TickClosedForm(every: nat, source: Source, entry: Loop, turns: seq<Turn>)
    requires Bounded(source)
    ensures var o := Run(Interval(every), source, entry, turns);
      IsClosedForm(entry.tick, o.fires, Period(every), o.loop.tick)
  {
    var o := Run(Interval(every), source, entry, turns);
    RunIsChained(Interval(every), source, entry, turns);
    ChainClosedForm(every, entry.tick, o.fires, o.loop.tick);
  }

  // ---- no backlog burst

  /** How many fires start in the closed time window `[from, from + width]`. */
  function StartsIn(fires: seq<Fire>, from: nat, width: nat): nat {
    if fires == [] then 0
    else
      var n := |fires| - 1;
      StartsIn(fires[..n], from, width) + (if from <= fires[n].start <= from + width then 1 else 0)
  }

  lemma {:induction false} FewStarts(fires: seq<Fire>, from: nat, width: nat, first: int)
    requires forall i :: 0 <= i < |fires| && from <= fires[i].start <= from + width ==> i >= first
    ensures StartsIn(fires, from, width) <= if first <= 0 then |fires| else if first >= |fires| then 0 else |fires| - first
  {
    if fires != [] {
      FewStarts(fires[..|fires| - 1], from, width, first);
    }
  }

  /** Fires after fire i are due at least whole periods after it completed. */
  lemma TickSpacing(every: nat, tick0: nat, fires: seq<Fire>, tick: nat, i: nat)
    requires Chained(Interval(every), tick0, fires, tick) && i < |fires| - 1
    ensures var n := |fires| - 1;
      fires[n].start >= fires[n].tick >= Later(fires[i].completed, n - 1 - i, Period(every))
    ensures fires[i].start <= fires[i].completed
  {
    var n := |fires| - 1;
    ChainClosedForm(every, tick0, fires[..n], fires[n].tick);
    assert fires[..n][i] == fires[i];
    ChainedPrefix(Interval(every), tick0, fires, tick, i);
  }

  /** A fire that starts in the window is at most `width / I + 1` fires after any other that does. */
  lemma SpacedStarts(every: nat, tick0: nat, fires: seq<Fire>, tick: nat, from: nat, width: nat, i: nat)
    requires Chained(Interval(every), tick0, fires, tick) && i < |fires|
    requires from <= fires[i].start
    requires fires[|fires| - 1].start <= from + width
    ensures |fires| - 1 - i <= width / Period(every) + 1
  {
    var n := |fires| - 1;
    if i < n {
      TickSpacing(every, tick0, fires, tick, i);
      QuotientBound(fires[i].completed, n - 1 - i, Period(every), from, width);
    } else {
      QuotientBound(from, 0, Period(every), from, width);
    }
  }

  lemma QuotientBound(t: nat, k: nat, p: nat, from: nat, width: nat)
    requires p > 0 && from <= t && Later(t, k, p) <= from + width
    ensures k <= width / p
  {
    assert k * p <= width;
    if k > width / p { MulMonotone(width / p + 1, k, p); }
  }

  lemma MulMonotone(a: nat, b: nat, p: nat)
    requires a <= b
    ensures a * p <= b * p
  {
  }

  lemma {:induction false} ChainHasNoBurst(every: nat, tick0: nat, fires: seq<Fire>, tick: nat, from: nat, width: nat)
    requires Chained(Interval(every), tick0, fires, tick)
    ensures StartsIn(fires, from, width) <= width / Period(every) + 2
    decreases |fires|
  {
    if fires != [] {
      var n := |fires| - 1;
      if from <= fires[n].start <= from + width {
        var first := n - (width / Period(every) + 1);
        forall i | 0 <= i < |fires| && from <= fires[i].start <= from + width ensures i >= first {
          SpacedStarts(every, tick0, fires, tick, from, width, i);
        }
        FewStarts(fires, from, width, first);
      } else {
        ChainHasNoBurst(every, tick0, fires[..n], fires[n].tick, from, width);
      }
    }
  }

  /** No backlog burst: whatever the durations, latencies, jitter and signals, no time window of
      length `width` contains more than `width / I + 2` starts. */
  lemma NoBurst(every: nat, source: Source, entry: Loop, turns: seq<Turn>, from: nat, width: nat)
    requires Bounded(source)
    ensures StartsIn(Run(Interval(every), source, entry, turns).fires, from, width) <= width / Period(every) + 2
  {
    var o := Run(Interval(every), source, entry, turns);
    RunIsChained(Interval(every), source, entry, turns);
    ChainHasNoBurst(every, entry.tick, o.fires, o.loop.tick, from, width);
  }

  // ---- the burst bound is attained

  /** One turn that wakes a whole period late, then `k` turns on time. */
  function LateThenPunctual(period: nat, k: nat): seq<Turn> {
    if k == 0 then [] + [Timer(0, period, 0)] else LateThenPunctual(period, k - 1) + [Timer(0, 0, 0)]
  }

  /** A source that never delays, as a policy of fraction zero. */
  ghost predicate Jitterless(source: Source) {
    forall gap: nat, state: Word :: source.delay(gap, state) == 0
  }

  lemma ZeroFractionIsJitterless()
    ensures Jitterless(SplitMix(0.0))
  {
    forall gap: nat, state: Word ensures SplitMix(0.0).delay(gap, state) == 0 {
      assert Jitter.Window(0.0, gap) == 0;
    }
  }

  /** Without jitter, a turn that is early for its tick and wakes on time fires exactly at the tick. */
  lemma PunctualStep(every: nat, source: Source, o: Outcome, latency: nat)
    requires Jitterless(source)
    requires !o.loop.stopped && o.loop.clock <= o.loop.tick && latency <= Period(every)
    ensures
      var at := o.loop.tick + latency;
      Step(Interval(every), source, o, Timer(0, latency, 0))
      == Outcome(Loop(at, o.loop.tick + Period(every), source.next(Gap(o.loop, 0), o.loop.rng), false),
                 o.fires + [Fire(o.loop.tick, o.loop.tick, at, at)])
  {
  }

  /** The state after the late turn and `k` punctual ones: k + 1 starts between `t` and the clock. */
  ghost predicate LateState(o: Outcome, t: nat, k: nat, period: nat) {
    && !o.loop.stopped && |o.fires| == k + 1
    && o.loop.tick == Later(t, k, period)
    && (if k == 0 then o.loop.clock == o.loop.tick else o.loop.clock + period == o.loop.tick)
    && (forall i :: 0 <= i < |o.fires| ==> t <= o.fires[i].start <= o.loop.clock)
  }

  lemma LateStateStart(every: nat, source: Source, now: nat, seed: Word)
    requires Jitterless(source)
    ensures LateState(Step(Interval(every), source, Outcome(Entry(Interval(every), now, seed), []), Timer(0, Period(every), 0)),
                      now + 2 * Period(every), 0, Period(every))
  {
    PunctualStep(every, source, Outcome(Entry(Interval(every), now, seed), []), Period(every));
    LaterStep(now + 2 * Period(every), 0, Period(every));
  }

  lemma LateStateStep(every: nat, source: Source, o: Outcome, t: nat, k: nat)
    requires Jitterless(source) && LateState(o, t, k, Period(every))
    ensures LateState(Step(Interval(every), source, o, Timer(0, 0, 0)), t, k + 1, Period(every))
  {
  }

  lemma RunAppend(trigger: Trigger, source: Source, entry: Loop, turns: seq<Turn>, turn: Turn)
    ensures Run(trigger, source, entry, turns + [turn]) == Step(trigger, source, Run(trigger, source, entry, turns), turn)
  {
  }

  lemma {:induction false} LateRun(every: nat, source: Source, now: nat, seed: Word, k: nat)
    requires Jitterless(source)
    ensures LateState(Run(Interval(every), source, Entry(Interval(every), now, seed), LateThenPunctual(Period(every), k)),
                      now + 2 * Period(every), k, Period(every))
  {
    var p, trigger := Period(every), Interval(every);
    var entry := Entry(trigger, now, seed);
    if k == 0 {
      RunAppend(trigger, source, entry, [], Timer(0, p, 0));
      LateStateStart(every, source, now, seed);
    } else {
      LateRun(every, source, now, seed, k - 1);
      RunAppend(trigger, source, entry, LateThenPunctual(p, k - 1), Timer(0, 0, 0));
      LateStateStep(every, source, Run(trigger, source, entry, LateThenPunctual(p, k - 1)), now + 2 * p, k - 1);
    }
  }

  lemma {:induction false} AllStartsIn(fires: seq<Fire>, from: nat, width: nat)
    requires forall i :: 0 <= i < |fires| ==> from <= fires[i].start <= from + width
    ensures StartsIn(fires, from, width) == |fires|
  {
    if fires != [] { AllStartsIn(fires[..|fires| - 1], from, width); }
  }

  /** The bound of `NoBurst` is exact: for every interval and every width some run reaches it. */
  lemma BurstBoundIsAttained(every: nat, source: Source, now: nat, seed: Word, width: nat) returns (turns: seq<Turn>, from: nat)
    requires Jitterless(source)
    ensures StartsIn(Run(Interval(every), source, Entry(Interval(every), now, seed), turns).fires, from, width)
         == width / Period(every) + 2
  {
    var p := Period(every);
    var k := width / p + 1;
    turns, from := LateThenPunctual(p, k), now + 2 * p;
    LateRun(every, source, now, seed, k);
    LaterStep(from, k - 1, p);
    LastStartFits(from, width, p);
    AllStartsIn(Run(Interval(every), source, Entry(Interval(every), now, seed), turns).fires, from, width);
  }

  lemma LastStartFits(from: nat, width: nat, p: nat)
    requires p > 0
    ensures Later(from, width / p, p) <= from + width
  {
  }

  // ---- any trigger: the grid is a lower bound, missed ticks collapse

  /** A schedule: its next tick, where there is one, is strictly later and monotone in the anchor; a
      later anchor has a next tick only if an earlier one does; and it runs out only past its ticks. */
  ghost predicate Regular(trigger: Trigger) {
    && (forall a: nat :: NextFireAfter(trigger, a).Some? ==> NextFireAfter(trigger, a).value > a)
    && (forall a: nat, b: nat :: a <= b && NextFireAfter(trigger, b).Some? ==>
          NextFireAfter(trigger, a).Some? && NextFireAfter(trigger, a).value <= NextFireAfter(trigger, b).value)
    && (forall a: nat, b: nat :: a <= b && NextFireAfter(trigger, a).Some? && NextFireAfter(trigger, b).None? ==>
          NextFireAfter(trigger, a).value <= b)
  }

  lemma IntervalIsRegular(every: nat)
    ensures Regular(Interval(every))
    ensures forall a: nat :: NextFireAfter(Interval(every), a) == Some(a + if every <= 1_000_000 then 1_000_000 else every)
  {
  }

  /** The next tick after `a` is the first of `ticks` past it, if there is one. */
  ghost predicate FirstOf(ticks: iset<nat>, a: nat, next: Option<nat>) {
    match next
    case Some(t) => t in ticks && a < t && forall u :: u in ticks && a < u ==> t <= u
    case None => forall u :: u in ticks ==> u <= a
  }

  /** Every cron schedule is regular, finite or not: it has a set of ticks and takes the first one. */
  lemma CronIsRegular(tickAfter: nat -> Option<nat>, ticks: iset<nat>)
    requires forall a: nat :: FirstOf(ticks, a, tickAfter(a))
    ensures Regular(Cron(tickAfter))
  {
    forall a: nat, b: nat | a <= b
      ensures NextFireAfter(Cron(tickAfter), a) == tickAfter(a) && FirstOf(ticks, a, tickAfter(a))
      ensures NextFireAfter(Cron(tickAfter), b) == tickAfter(b) && FirstOf(ticks, b, tickAfter(b))
    {
    }
  }

  /** The n-th tick of the schedule itself, starting at `tick0`, unless it runs out before. */
  ghost function Grid(trigger: Trigger, tick0: nat, n: nat): Option<nat> {
    if n == 0 then Some(tick0)
    else
      match Grid(trigger, tick0, n - 1)
      case Some(t) => NextFireAfter(trigger, t)
      case None => None
  }

  lemma {:induction false} ChainAfterGrid(trigger: Trigger, tick0: nat, fires: seq<Fire>, tick: nat)
    requires Regular(trigger) && Chained(trigger, tick0, fires, tick)
    ensures Grid(trigger, tick0, |fires|).Some? ==> tick >= Grid(trigger, tick0, |fires|).value
    decreases |fires|
  {
    if fires != [] {
      var n := |fires| - 1;
      ChainAfterGrid(trigger, tick0, fires[..n], fires[n].tick);
    }
  }

  /** The k-th fire never starts before the k-th grid tick, if the grid has one, nor before the fire
      before it finished. */
  lemma NeverEarly(trigger: Trigger, source: Source, entry: Loop, turns: seq<Turn>, k: nat)
    requires Bounded(source)
    requires Regular(trigger)
    requires k < |Run(trigger, source, entry, turns).fires|
    ensures var fires := Run(trigger, source, entry, turns).fires;
      && (Grid(trigger, entry.tick, k).Some? ==> Grid(trigger, entry.tick, k).value <= fires[k].tick)
      && fires[k].tick <= fires[k].fireAt <= fires[k].start <= fires[k].completed
      && (k > 0 ==> fires[k - 1].completed <= fires[k].start)
  {
    var o := Run(trigger, source, entry, turns);
    RunIsChained(trigger, source, entry, turns);
    ChainedPrefix(trigger, entry.tick, o.fires, o.loop.tick, k);
    ChainAfterGrid(trigger, entry.tick, o.fires[..k], o.fires[k].tick);
  }

  /** Ticks missed during one run collapse. If fire k outlasted its gap, then the next fire is due at
      the completion itself, without jitter, and every later fire is due after that completion, and not
      before the first tick after it, if there is one. */
  lemma MissedTicksCollapse(trigger: Trigger, source: Source, entry: Loop, turns: seq<Turn>, k: nat, j: nat)
    requires Bounded(source)
    requires Regular(trigger)
    requires k < j < |Run(trigger, source, entry, turns).fires|
    requires var fire := Run(trigger, source, entry, turns).fires[k];
      NextFireAfter(trigger, fire.tick).Some? && NextFireAfter(trigger, fire.tick).value <= fire.completed
    ensures var fires := Run(trigger, source, entry, turns).fires;
      && fires[k + 1].tick == fires[k + 1].fireAt == fires[k].completed
      && (j > k + 1 ==> fires[j].tick > fires[k].completed)
      && (j > k + 1 && NextFireAfter(trigger, fires[k].completed).Some? ==>
            fires[j].tick >= NextFireAfter(trigger, fires[k].completed).value)
  {
    var o := Run(trigger, source, entry, turns);
    RunIsChained(trigger, source, entry, turns);
    ChainCollapses(trigger, entry.tick, o.fires, o.loop.tick, k, j);
  }

  lemma ChainCollapses(trigger: Trigger, tick0: nat, fires: seq<Fire>, tick: nat, k: nat, j: nat)
    requires Regular(trigger) && Chained(trigger, tick0, fires, tick) && k < j < |fires|
    requires NextFireAfter(trigger, fires[k].tick).Some? && NextFireAfter(trigger, fires[k].tick).value <= fires[k].completed
    ensures fires[k + 1].tick == fires[k + 1].fireAt == fires[k].completed
    ensures j > k + 1 ==> fires[j].tick > fires[k].completed
    ensures j > k + 1 && NextFireAfter(trigger, fires[k].completed).Some? ==>
      fires[j].tick >= NextFireAfter(trigger, fires[k].completed).value
  {
    ChainedPrefix(trigger, tick0, fires, tick, k);
    ChainedPrefix(trigger, tick0, fires, tick, k + 1);
    if j > k + 1 { TicksIncrease(trigger, tick0, fires, tick, k + 2, j); }
  }

  lemma {:induction false} TicksIncrease(trigger: Trigger, tick0: nat, fires: seq<Fire>, tick: nat, i: nat, j: nat)
    requires Regular(trigger) && Chained(trigger, tick0, fires, tick) && i <= j < |fires|
    ensures fires[i].tick <= fires[j].tick
    decreases j
  {
    if i < j {
      TicksIncrease(trigger, tick0, fires, tick, i, j - 1);
      ChainedPrefix(trigger, tick0, fires, tick, j - 1);
    }
  }

  // ---- a schedule that runs out

  /** Some tick of the schedule lies after `lo` and not after `hi`. */
  ghost predicate HasTick(trigger: Trigger, lo: nat, hi: nat) {
    exists a: nat :: NextFireAfter(trigger, a).Some? && lo < NextFireAfter(trigger, a).value <= hi
  }

  /** The tick before fire k, or the entry, and the completion before it, or the entry. */
  function TickBefore(now: nat, fires: seq<Fire>, k: nat): nat
    requires k < |fires|
  {
    if k == 0 then now else fires[k - 1].tick
  }

  function DoneBefore(now: nat, fires: seq<Fire>, k: nat): nat
    requires k < |fires|
  {
    if k == 0 then now else fires[k - 1].completed
  }

  /** How the tick of a fire comes about, from the tick and the completion before it: with a tick of the
      schedule in between if and only if the schedule had one left, and then at the later of that tick and
      the completion; else 60 s after the completion. */
  ghost predicate DueExactly(trigger: Trigger, tick: nat, completed: nat, due: nat) {
    var next := NextFireAfter(trigger, tick);
    && (HasTick(trigger, tick, due) <==> next.Some?)
    && (next.Some? ==> due == Max(next.value, completed))
    && (next.None? ==> due == completed + SCHEDULE_PARK && NextFireAfter(trigger, due).None?)
  }

  lemma AdvanceIsDue(trigger: Trigger, tick: nat, completed: nat)
    requires Regular(trigger) && tick <= completed
    ensures DueExactly(trigger, tick, completed, Advance(trigger, tick, completed))
  {
    if NextFireAfter(trigger, tick).Some? {
      assert tick < NextFireAfter(trigger, tick).value <= Advance(trigger, tick, completed);
    }
  }

  lemma FirstTickIsAdvance(trigger: Trigger, now: nat)
    requires Regular(trigger)
    ensures FirstTick(trigger, now) == Advance(trigger, now, now)
  {
  }

  /** Exactly when the loop fires without a tick. The documentation has an exhausted schedule park and
      re-evaluate; a fire is due without any tick of the schedule since the fire before it, or since the
      entry, if and only if the schedule had none left there. It is then due 60 s after the completion. */
  lemma FiresWithoutTickIffRunOut(trigger: Trigger, source: Source, now: nat, seed: Word, turns: seq<Turn>, k: nat)
    requires Bounded(source)
    requires Regular(trigger)
    requires k < |Run(trigger, source, Entry(trigger, now, seed), turns).fires|
    ensures
      var fires := Run(trigger, source, Entry(trigger, now, seed), turns).fires;
      DueExactly(trigger, TickBefore(now, fires, k), DoneBefore(now, fires, k), fires[k].tick)
  {
    var entry := Entry(trigger, now, seed);
    var o := Run(trigger, source, entry, turns);
    RunIsChained(trigger, source, entry, turns);
    ChainIsDue(trigger, now, o.fires, o.loop.tick, k);
  }

  lemma ChainIsDue(trigger: Trigger, now: nat, fires: seq<Fire>, tick: nat, k: nat)
    requires Regular(trigger) && Chained(trigger, FirstTick(trigger, now), fires, tick) && k < |fires|
    ensures DueExactly(trigger, TickBefore(now, fires, k), DoneBefore(now, fires, k), fires[k].tick)
  {
    if k == 0 {
      ChainedPrefix(trigger, FirstTick(trigger, now), fires, tick, 0);
      FirstTickIsAdvance(trigger, now);
      AdvanceIsDue(trigger, now, now);
    } else {
      ChainedPrefix(trigger, FirstTick(trigger, now), fires, tick, k - 1);
      AdvanceIsDue(trigger, fires[k - 1].tick, fires[k - 1].completed);
    }
  }

  /** Once the schedule has run out at a fire it stays so, and the loop goes on firing for ever: each
      later fire is due 60 s after the last finished, with no tick of the schedule in between. */
  lemma ExhaustedStillFires(trigger: Trigger, source: Source, entry: Loop, turns: seq<Turn>, i: nat, k: nat)
    requires Bounded(source)
    requires Regular(trigger)
    requires i < k < |Run(trigger, source, entry, turns).fires|
    requires NextFireAfter(trigger, Run(trigger, source, entry, turns).fires[i].tick).None?
    ensures var fires := Run(trigger, source, entry, turns).fires;
      && fires[k].tick == fires[k - 1].completed + SCHEDULE_PARK
      && !HasTick(trigger, fires[k - 1].tick, fires[k].tick)
      && NextFireAfter(trigger, fires[k].tick).None?
  {
    var o := Run(trigger, source, entry, turns);
    RunIsChained(trigger, source, entry, turns);
    ChainStaysExhausted(trigger, entry.tick, o.fires, o.loop.tick, i, k);
  }

  lemma {:induction false} ChainStaysExhausted(trigger: Trigger, tick0: nat, fires: seq<Fire>, tick: nat, i: nat, k: nat)
    requires Regular(trigger) && Chained(trigger, tick0, fires, tick) && i < k < |fires|
    requires NextFireAfter(trigger, fires[i].tick).None?
    ensures fires[k].tick == fires[k - 1].completed + SCHEDULE_PARK
    ensures !HasTick(trigger, fires[k - 1].tick, fires[k].tick)
    ensures NextFireAfter(trigger, fires[k].tick).None?
    decreases k
  {
    if i < k - 1 { ChainStaysExhausted(trigger, tick0, fires, tick, i, k - 1); }
    ChainedPrefix(trigger, tick0, fires, tick, k - 1);
    AdvanceIsDue(trigger, fires[k - 1].tick, fires[k - 1].completed);
  }

  /** The cron schedule whose only tick is at `t`. */
  function Once(t: nat): Trigger { Cron(a => if a < t then Some(t) else None) }

  /** The input: a schedule with the single tick 10, no jitter, and a loop entered at 0 that wakes on time.
      It fires at 10, parks, and fires again 60 s later although no tick is left. */
  lemma OneTickFiresTwice(seed: Word)
    ensures
      var fires := Run(Once(10), SplitMix(0.0), Entry(Once(10), 0, seed), [Timer(0, 0, 0), Timer(0, 0, 0)]).fires;
      var again := 60_000_000_010;
      && fires == [Fire(10, 10, 10, 10), Fire(again, again, again, again)]
      && NextFireAfter(Once(10), 10).None?
  {
    var source, entry, turn := SplitMix(0.0), Entry(Once(10), 0, seed), Timer(0, 0, 0);
    ZeroFractionIsJitterless();
    RunAppend(Once(10), source, entry, [], turn);
    RunAppend(Once(10), source, entry, [turn], turn);
    assert [] + [turn] == [turn] && [turn] + [turn] == [turn, turn];
  }

  // ---- capacity

  /** The wait never exceeds one period: every reachable tick is at most a period ahead of the clock. */
  lemma {:induction false} GapWithinPeriod(every: nat, source: Source, now: nat, seed: Word, turns: seq<Turn>, head: nat)
    requires Bounded(source)
    ensures var o := Run(Interval(every), source, Entry(Interval(every), now, seed), turns);
      Gap(o.loop, head) <= Period(every)
  {
    if turns != [] {
      var trigger := Interval(every);
      var before := Run(trigger, source, Entry(trigger, now, seed), turns[..|turns| - 1]);
      var turn := turns[|turns| - 1];
      GapWithinPeriod(every, source, now, seed, turns[..|turns| - 1], 0);
    }
  }

  /** Delays for gaps of at most one period stay within `window`. */
  ghost predicate Within(source: Source, period: nat, window: nat) {
    forall gap: nat, state: Word :: gap <= period ==> source.delay(gap, state) <= window
  }

  /** For the runner's own source that window is the policy's window of one period. */
  lemma SplitMixIsWithin(fraction: Jitter.Fraction, period: nat)
    ensures Within(SplitMix(fraction), period, Jitter.Window(fraction, period))
  {
    forall gap: nat, state: Word | gap <= period
      ensures SplitMix(fraction).delay(gap, state) <= Jitter.Window(fraction, period)
    {
      Jitter.DelayInWindow(fraction, gap, state);
      Jitter.WindowIsMonotone(fraction, gap, period);
    }
  }

  /** When the turn's fire is planned. */
  function PlannedAt(source: Source, loop: Loop, turn: Turn): nat {
    loop.tick + source.delay(Gap(loop, turn.head), loop.rng)
  }

  /** The time `n` turns may take to read the clock. */
  function Slip(slack: nat, n: nat): nat { slack * n }

  lemma SlipGrows(slack: nat, m: nat, n: nat)
    requires m <= n
    ensures Slip(slack, m) <= Slip(slack, n)
    ensures Slip(slack, n + 1) == Slip(slack, n) + slack >= slack
  {
  }

  /** A turn that leaves room: it reads the clock within `slack` of the previous turn; if the timer
      wins, jitter window, slack, wake-up latency and run together fit into the period; if a change
      that is no shutdown wins, it does so before the planned time, or at once if that has passed. */
  ghost predicate RoomyTurn(every: nat, source: Source, window: nat, slack: nat, strays: nat, loop: Loop, turn: Turn) {
    && turn.head <= slack
    && (turn.Timer? ==> window + Slip(slack, strays + 1) + turn.latency + turn.duration < Period(every))
    && (turn.Signal? && !turn.stop ==>
          loop.clock + turn.head + turn.wait <= Max(loop.clock + turn.head, PlannedAt(source, loop, turn)))
  }

  /** How many signals since the last fire won although the timer was due as well. */
  ghost function Strays(every: nat, source: Source, entry: Loop, turns: seq<Turn>): nat {
    if turns == [] then 0
    else
      var n := |turns| - 1;
      NextStrays(source, Run(Interval(every), source, entry, turns[..n]).loop, Strays(every, source, entry, turns[..n]), turns[n])
  }

  function NextStrays(source: Source, loop: Loop, late: nat, turn: Turn): nat {
    if turn.Timer? then 0 else if loop.clock + turn.head > PlannedAt(source, loop, turn) then late + 1 else late
  }

  /** Every turn of the run, until it stops, leaves room, and no fire is kept waiting by more than
      `strays` signals after it was due. */
  ghost predicate Roomy(every: nat, source: Source, window: nat, slack: nat, strays: nat, entry: Loop, turns: seq<Turn>) {
    forall i :: 0 <= i < |turns| ==>
      var loop := Run(Interval(every), source, entry, turns[..i]).loop;
      || loop.stopped
      || (RoomyTurn(every, source, window, slack, strays, loop, turns[i]) && Strays(every, source, entry, turns[..i]) <= strays)
  }

  /** No turn is won by a signal. */
  predicate Calm(turns: seq<Turn>) { forall i :: 0 <= i < |turns| ==> turns[i].Timer? }

  /** The turns won by the timer. */
  function Timers(turns: seq<Turn>): (timers: seq<Turn>)
    ensures forall i :: 0 <= i < |timers| ==> timers[i].Timer?
  {
    if turns == [] then []
    else Timers(turns[..|turns| - 1]) + (if turns[|turns| - 1].Timer? then [turns[|turns| - 1]] else [])
  }

  /** The fire for a tick: within the allowance plus latency, and finished before the next tick. */
  ghost predicate OnTime(every: nat, allowance: nat, fire: Fire, turn: Turn)
    requires turn.Timer?
  {
    && fire.tick <= fire.start <= fire.tick + allowance + turn.latency
    && fire.completed < fire.tick + Period(every)
  }

  /** The loop is at most a period before its tick, and not late: in time to read the clock before the
      tick, or, once signals have interrupted it, within the window and what `late` strays may take. */
  ghost predicate Steady(every: nat, window: nat, slack: nat, calm: bool, late: nat, loop: Loop) {
    && loop.tick <= loop.clock + Period(every)
    && (if calm then loop.clock + slack <= loop.tick else loop.clock <= loop.tick + window + Slip(slack, late))
  }

  /** How far past its tick, apart from wake-up latency, a fire may start. */
  function Allowance(window: nat, slack: nat, strays: nat, calm: bool): nat {
    if calm then window else window + Slip(slack, strays + 1)
  }

  lemma RoomyFire(every: nat, source: Source, window: nat, slack: nat, strays: nat, calm: bool, late: nat, loop: Loop, turn: Turn)
    requires Within(source, Period(every), window)
    requires turn.Timer? && RoomyTurn(every, source, window, slack, strays, loop, turn) && late <= strays
    requires Steady(every, window, slack, calm, late, loop)
    ensures
      var fire := FireOf(source, loop, turn);
      && OnTime(every, Allowance(window, slack, strays, calm), fire, turn)
      && Advance(Interval(every), fire.tick, fire.completed) == fire.tick + Period(every)
      && fire.tick + Period(every) <= fire.completed + Period(every)
      && (calm ==> fire.completed + slack <= fire.tick + Period(every))
  {
    assert source.delay(Gap(loop, turn.head), loop.rng) <= window;
    SlipGrows(slack, late, strays);
  }

  lemma RoomySignal(every: nat, source: Source, window: nat, slack: nat, strays: nat, calm: bool, late: nat, o: Outcome, turn: Turn)
    requires Within(source, Period(every), window)
    requires turn.Signal? && !turn.stop && RoomyTurn(every, source, window, slack, strays, o.loop, turn)
    requires !o.loop.stopped && Steady(every, window, slack, calm, late, o.loop)
    ensures Steady(every, window, slack, false, NextStrays(source, o.loop, late, turn), Step(Interval(every), source, o, turn).loop)
  {
    assert source.delay(Gap(o.loop, turn.head), o.loop.rng) <= window;
    SlipGrows(slack, late, late);
  }

  /** What capacity promises of a run so far. */
  ghost predicate OnGrid(every: nat, window: nat, slack: nat, strays: nat, tick0: nat, turns: seq<Turn>, o: Outcome) {
    var timers := Timers(turns);
    && o.loop.tick == Later(tick0, |o.fires|, Period(every))
    && |o.fires| <= |timers| && (!o.loop.stopped ==> |o.fires| == |timers|)
    && (forall k :: 0 <= k < |o.fires| ==>
          && o.fires[k].tick == Later(tick0, k, Period(every))
          && OnTime(every, Allowance(window, slack, strays, Calm(turns)), o.fires[k], timers[k]))
  }

  /** Capacity: with room in every turn no fire ever overruns. Tick k lies exactly on `tick0 + k*I`, and
      fire k starts within its jitter window plus its wake-up latency. If signals other than a shutdown
      interrupt the waits, it may start later by the time one turn takes to read the clock, and by
      another for each signal that won although the timer was due. */
  lemma {:induction false} Capacity(
      every: nat, source: Source, window: nat, slack: nat, strays: nat, now: nat, seed: Word, turns: seq<Turn>)
    requires Within(source, Period(every), window)
    requires Roomy(every, source, window, slack, strays, Entry(Interval(every), now, seed), turns)
    requires slack < Period(every)
    ensures
      var entry := Entry(Interval(every), now, seed);
      var o := Run(Interval(every), source, entry, turns);
      && OnGrid(every, window, slack, strays, entry.tick, turns, o)
      && (!o.loop.stopped ==> Steady(every, window, slack, Calm(turns), Strays(every, source, entry, turns), o.loop))
  {
    var trigger, entry := Interval(every), Entry(Interval(every), now, seed);
    if turns == [] {
      LaterStep(entry.tick, 0, Period(every));
    } else {
      var n := |turns| - 1;
      var init := turns[..n];
      forall i | 0 <= i < n ensures init[..i] == turns[..i] {}
      Capacity(every, source, window, slack, strays, now, seed, init);
      var o, late := Run(trigger, source, entry, init), Strays(every, source, entry, init);
      CapacityStep(every, source, window, slack, strays, late, entry.tick, init, o, turns[n]);
      assert init + [turns[n]] == turns;
    }
  }

  lemma CapacityStep(
      every: nat, source: Source, window: nat, slack: nat, strays: nat, late: nat, tick0: nat, init: seq<Turn>, o: Outcome, turn: Turn)
    requires Within(source, Period(every), window)
    requires OnGrid(every, window, slack, strays, tick0, init, o)
    requires o.loop.stopped || (
      && RoomyTurn(every, source, window, slack, strays, o.loop, turn) && late <= strays
      && Steady(every, window, slack, Calm(init), late, o.loop))
    ensures
      var u, turns := Step(Interval(every), source, o, turn), init + [turn];
      && OnGrid(every, window, slack, strays, tick0, turns, u)
      && (!u.loop.stopped ==> Steady(every, window, slack, Calm(turns), NextStrays(source, o.loop, late, turn), u.loop))
  {
    var turns := init + [turn];
    assert turns[..|turns| - 1] == init;
    assert Calm(turns) <==> Calm(init) && turn.Timer? by { assert turns[|init|] == turn; }
    if !o.loop.stopped && turn.Timer? {
      RoomyFire(every, source, window, slack, strays, Calm(init), late, o.loop, turn);
      LaterStep(tick0, |o.fires|, Period(every));
    } else if !o.loop.stopped && !turn.stop {
      RoomySignal(every, source, window, slack, strays, Calm(init), late, o, turn);
    }
  }

  // ---- the runner's own loop

  /** The schedule of the loop as it runs, with the policy's jitter over its own generator: the tick
      has the closed form, no window bursts, and no tick is more than a period away. */
  lemma RunnerSchedule(every: nat, fraction: Jitter.Fraction, now: nat, seed: Word, turns: seq<Turn>, from: nat, width: nat)
    ensures
      var entry := Entry(Interval(every), now, seed);
      var o := Run(Interval(every), SplitMix(fraction), entry, turns);
      && IsClosedForm(entry.tick, o.fires, Period(every), o.loop.tick)
      && StartsIn(o.fires, from, width) <= width / Period(every) + 2
      && Gap(o.loop, 0) <= Period(every)
  {
    var source := SplitMix(fraction);
    SplitMixIsBounded(fraction);
    TickClosedForm(every, source, Entry(Interval(every), now, seed), turns);
    NoBurst(every, source, Entry(Interval(every), now, seed), turns, from, width);
    GapWithinPeriod(every, source, now, seed, turns, 0);
  }

  /** Capacity of the loop as it runs: the window is the policy's window of one period. */
  lemma RunnerCapacity(every: nat, fraction: Jitter.Fraction, slack: nat, strays: nat, now: nat, seed: Word, turns: seq<Turn>)
    requires slack < Period(every)
    requires Roomy(every, SplitMix(fraction), Jitter.Window(fraction, Period(every)), slack, strays,
                   Entry(Interval(every), now, seed), turns)
    ensures
      var entry := Entry(Interval(every), now, seed);
      var o := Run(Interval(every), SplitMix(fraction), entry, turns);
      OnGrid(every, Jitter.Window(fraction, Period(every)), slack, strays, entry.tick, turns, o)
  {
    SplitMixIsWithin(fraction, Period(every));
    Capacity(every, SplitMix(fraction), Jitter.Window(fraction, Period(every)), slack, strays, now, seed, turns);
  }
}
