/** A whole job loop (`run_loop` of src/runner.rs): the startup fire, the scheduled fires, the drain pass and
    the summary it returns. It joins the schedule of `Schedule` and the fires of `Runner`. */
module Worker {
  import opened Options
  import opened Words
  import Jitter
  import Rng
  import opened Runner
  import Schedule
  import Snapshot

  /** The first `n` attempts of an endless supply: what each fire of the loop meets, if it is made. */
  function First(attempts: nat -> Attempt, n: nat): seq<Attempt> {
    seq(n, i requires 0 <= i < n => attempts(i))
  }

  lemma FirstStep(spec: Spec, attempts: nat -> Attempt, n: nat)
    ensures After(spec, First(attempts, n + 1)) == FireStep(spec, After(spec, First(attempts, n)), attempts(n))
  {
    var all := First(attempts, n + 1);
    assert all[..|all| - 1] == First(attempts, n);
  }

  /** A turn in which the shutdown is seen. */
  predicate Stops(turns: seq<Schedule.Turn>) {
    exists i :: 0 <= i < |turns| && turns[i].Signal? && turns[i].stop
  }

  /** How many timer turns there are before the shutdown is seen. */
  function TimersBeforeStop(turns: seq<Schedule.Turn>): nat {
    if turns == [] then 0
    else
      var n := |turns| - 1;
      TimersBeforeStop(turns[..n]) + (if turns[n].Timer? && !Stops(turns[..n]) then 1 else 0)
  }

  /** The loop stops exactly when a shutdown is seen, and fires once per timer turn before that. */
  lemma {:induction false} FiresPerTimer(
      trigger: Schedule.Trigger, source: Schedule.Source, entry: Schedule.Loop, turns: seq<Schedule.Turn>)
    requires !entry.stopped
    ensures
      var o := Schedule.Run(trigger, source, entry, turns);
      (o.loop.stopped <==> Stops(turns)) && |o.fires| == TimersBeforeStop(turns)
  {
    if turns != [] {
      var n := |turns| - 1;
      FiresPerTimer(trigger, source, entry, turns[..n]);
      assert Stops(turns) <==> Stops(turns[..n]) || (turns[n].Signal? && turns[n].stop) by {
        if i :| 0 <= i < n && turns[i].Signal? && turns[i].stop { assert turns[..n][i] == turns[i]; }
      }
    }
  }

  /** The fires a loop that is never unwound makes: one at the start if it is asked to, one for each timer
      turn before the shutdown, and one in the drain pass if it is asked to and the shutdown is seen. */
  predicate AllFired(made: nat, fireAtStart: bool, drainPass: bool, turns: seq<Schedule.Turn>) {
    match (fireAtStart, drainPass && Stops(turns))
    case (false, false) => made == TimersBeforeStop(turns)
    case (true, true) => made == TimersBeforeStop(turns) + 2
    case _ => made == TimersBeforeStop(turns) + 1
  }

  /** What a returned summary says. */
  ghost predicate Accounts(spec: Spec, attempts: seq<Attempt>, summary: Snapshot.Counters) {
    && summary == Snapshot.CountersOf(Tally(spec, Trace(spec, attempts)))
    && |Trace(spec, attempts)| == |attempts|
    && (summary.fires + summary.skips + summary.paused) % WORD == |attempts| % WORD
  }

  lemma SummaryAccounts(spec: Spec, attempts: seq<Attempt>)
    requires After(spec, attempts).alive
    ensures Accounts(spec, attempts, Snapshot.CountersOf(After(spec, attempts)))
  {
    var s := After(spec, attempts);
    assert |Trace(spec, attempts)| == |attempts| && (s.fires + s.skips + s.paused) % WORD == |attempts| % WORD by {
      Conservation(spec, attempts);
      AllAccounted(s, SeenAfter(spec, attempts).invoked, |Trace(spec, attempts)|, Guarded(spec, attempts));
    }
    SummaryIsTally(spec, attempts);
  }

  lemma AllAccounted(s: State, invoked: nat, made: nat, complete: bool)
    requires Accounted(s, invoked, made, complete) && complete
    ensures (s.fires + s.skips + s.paused) % WORD == made % WORD
  {
  }

  lemma SummaryIsTally(spec: Spec, attempts: seq<Attempt>)
    ensures Snapshot.CountersOf(After(spec, attempts)) == Snapshot.CountersOf(Tally(spec, Trace(spec, attempts)))
  {
    FiresMatchTrace(spec, attempts);
  }

  /** The loop. `now` is the clock after the startup fire, if there is one. A fire that unwinds ends the
      loop without a summary. A loop that stops and was not unwound has made exactly the fires due, and its
      summary accounts for all of them. */
  method RunWorker(
      runner: JobRunner, rng: Rng.SplitMix64, trigger: Schedule.Trigger, fraction: Jitter.Fraction,
      fireAtStart: bool, drainPass: bool, now: nat, turns: seq<Schedule.Turn>, attempts: nat -> Attempt)
    returns (made: nat, summary: Option<Snapshot.Counters>)
    requires runner.View() == FRESH
    modifies runner, rng
    ensures runner.View() == After(runner.spec, First(attempts, made))
    ensures runner.alive ==> AllFired(made, fireAtStart, drainPass, turns)
    ensures summary.Some? <==> runner.alive && Stops(turns)
    ensures
      var o := Schedule.Run(trigger, Schedule.SplitMix(fraction), Schedule.Entry(trigger, now, old(rng.state)), turns);
      runner.alive ==> rng.state == o.loop.rng
    ensures summary.Some? ==> Accounts(runner.spec, First(attempts, made), summary.value)
  {
    ghost var entry := Schedule.Entry(trigger, now, rng.state);
    made := 0;
    if fireAtStart {
      made := FireNext(runner, attempts, made);
    }
    ghost var fires: seq<Schedule.Fire> := [];
    var tick, clock, i, stopped := Schedule.FirstTick(trigger, now), now, 0, false;
    while i < |turns| && !stopped && runner.alive
      invariant 0 <= i <= |turns|
      invariant runner.View() == After(runner.spec, First(attempts, made))
      invariant runner.alive ==> made == (if fireAtStart then 1 else 0) + |fires|
      invariant Schedule.Run(trigger, Schedule.SplitMix(fraction), entry, turns[..i])
             == Schedule.Outcome(Schedule.Loop(clock, tick, rng.state, stopped), fires)
    {
      ghost var loop := Schedule.Loop(clock, tick, rng.state, false);
      assert turns[..i + 1] == turns[..i] + [turns[i]];
      Schedule.RunAppend(trigger, Schedule.SplitMix(fraction), entry, turns[..i], turns[i]);
      var fired;
      clock, tick, stopped, fired := Schedule.TakeTurn(trigger, fraction, rng, clock, tick, turns[i]);
      Schedule.StepAppends(trigger, Schedule.SplitMix(fraction), loop, fires, turns[i]);
      fires := fires + fired;
      if fired != [] {
        made := FireNext(runner, attempts, made);
      }
      i := i + 1;
    }
    if runner.alive {
      Schedule.StoppedStaysStopped(trigger, Schedule.SplitMix(fraction), entry, turns, i);
      FiresPerTimer(trigger, Schedule.SplitMix(fraction), entry, turns);
    }
    if stopped && drainPass && runner.alive {
      made := FireNext(runner, attempts, made);
    }
    summary := None;
    if stopped && runner.alive {
      SummaryAccounts(runner.spec, First(attempts, made));
      summary := Some(Snapshot.Counters(
        runner.fires, runner.failures, runner.skips, runner.paused, runner.consecutive, runner.degraded, runner.lastError));
    }
  }

  /** The next fire of the loop. */
  method FireNext(runner: JobRunner, attempts: nat -> Attempt, made: nat) returns (made': nat)
    requires runner.alive && runner.View() == After(runner.spec, First(attempts, made))
    modifies runner
    ensures made' == made + 1 && runner.View() == After(runner.spec, First(attempts, made'))
  {
    FirstStep(runner.spec, attempts, made);
    runner.Fire(attempts(made));
    made' := made + 1;
  }
}
