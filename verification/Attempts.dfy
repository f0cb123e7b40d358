/** What a runner's state says about the attempts themselves: everything here is read off the attempts' own
    fields and results, not off the events the runner makes of them. */
module Attempts {
  import opened Options
  import opened Words
  import opened Runner

  /** The breaker, if there is one, lets the closure run. */
  predicate Called(spec: Spec, a: Attempt) { !spec.useBreaker || a.verdict.Admit? || a.verdict.TimeOut? }

  predicate CutOff(spec: Spec, a: Attempt) { spec.useBreaker && a.verdict.TimeOut? }

  /** What the job failed with: its own message, and a fixed one for a panic or a call cut off. */
  function FailureOf(spec: Spec, a: Attempt): Option<string> {
    if !Called(spec, a) || a.result.PanicsEagerly? then None
    else if CutOff(spec, a) then Some("job rejected by unclassified breaker error (timed out, or a future variant)")
    else if a.result.PanicsPolled? then Some("job panicked (panic payload has no Display)")
    else if a.result.Fails? then Some(a.result.message)
    else None
  }

  predicate Failing(spec: Spec, a: Attempt) { FailureOf(spec, a).Some? }

  predicate Succeeding(spec: Spec, a: Attempt) { Called(spec, a) && !CutOff(spec, a) && a.result.Returns? }

  predicate Running(spec: Spec, a: Attempt) { Succeeding(spec, a) || Failing(spec, a) }

  predicate Refused(spec: Spec, a: Attempt) { !Called(spec, a) }

  /** The leader gate: not a leader job, or acquired, or renewed by a runner elected before. */
  predicate Admitted(spec: Spec, held: bool, a: Attempt) { !spec.leader || a.acquired || (held && a.renewed) }

  /** The event of an attempt, from its own fields. */
  lemma EventIs(spec: Spec, held: bool, a: Attempt)
    ensures
      var e, admitted := EventOf(spec, held, a), Admitted(spec, held, a);
      && (e.Skip? <==> !admitted)
      && (e.Pause? <==> admitted && Refused(spec, a))
      && (e.Done? <==> admitted && Succeeding(spec, a))
      && (e.Fail? <==> admitted && Failing(spec, a))
      && (e.Crash? <==> admitted && Called(spec, a) && a.result.PanicsEagerly?)
      && (e.Fail? ==> e.message == FailureOf(spec, a).value && e.hookPanics == a.hookPanics)
  {
  }

  // ---- reading a sequence of attempts

  /** The last attempt is made, because the loop still runs, and gets past the leader gate. */
  predicate Passed(spec: Spec, attempts: seq<Attempt>)
    requires attempts != []
  {
    var n := |attempts| - 1;
    After(spec, attempts[..n]).alive && Admitted(spec, After(spec, attempts[..n]).held, attempts[n])
  }

  /** How many attempts passed the gate and are of the given kind. */
  function CountPassed(spec: Spec, attempts: seq<Attempt>, kind: (Spec, Attempt) -> bool): nat {
    if attempts == [] then 0
    else
      var n := |attempts| - 1;
      CountPassed(spec, attempts[..n], kind) + (if Passed(spec, attempts) && kind(spec, attempts[n]) then 1 else 0)
  }

  /** How many attempts were made and turned away at the gate. */
  function CountTurnedAway(spec: Spec, attempts: seq<Attempt>): nat {
    if attempts == [] then 0
    else
      var n := |attempts| - 1;
      CountTurnedAway(spec, attempts[..n])
      + (if After(spec, attempts[..n]).alive && !Passed(spec, attempts) then 1 else 0)
  }

  /** How many attempts in a row failed, up to now; attempts turned away or refused do not count. */
  function Streak(spec: Spec, attempts: seq<Attempt>): nat {
    if attempts == [] then 0
    else
      var n := |attempts| - 1;
      if !Passed(spec, attempts) then Streak(spec, attempts[..n])
      else if Failing(spec, attempts[n]) then Streak(spec, attempts[..n]) + 1
      else if Succeeding(spec, attempts[n]) then 0
      else Streak(spec, attempts[..n])
  }

  /** The last attempt failed and made the streak as long as the budget, or one if the budget is zero. */
  predicate Alarms(spec: Spec, attempts: seq<Attempt>)
    requires attempts != []
  {
    && Passed(spec, attempts) && Failing(spec, attempts[|attempts| - 1])
    && Streak(spec, attempts) == if spec.failureBudget == 0 then 1 else spec.failureBudget
  }

  /** What the jobs failed with at each alarm. */
  function AlarmMessages(spec: Spec, attempts: seq<Attempt>): seq<string> {
    if attempts == [] then []
    else
      var n := |attempts| - 1;
      AlarmMessages(spec, attempts[..n]) + (if Alarms(spec, attempts) then [FailureOf(spec, attempts[n]).value] else [])
  }

  /** The last attempt's alarm reaches a hook that panics. */
  predicate HookPanics(spec: Spec, attempts: seq<Attempt>)
    requires attempts != []
  {
    spec.hooked && attempts[|attempts| - 1].hookPanics && Alarms(spec, attempts)
  }

  /** What the most recent job failed with, unless its hook panicked. */
  function LastMessage(spec: Spec, attempts: seq<Attempt>): Option<string> {
    if attempts == [] then None
    else
      var n := |attempts| - 1;
      if Passed(spec, attempts) && Failing(spec, attempts[n]) && !HookPanics(spec, attempts)
      then FailureOf(spec, attempts[n])
      else LastMessage(spec, attempts[..n])
  }

  // ---- the events agree

  predicate Any(spec: Spec, a: Attempt) { true }

  /** The event trace and the attempts tell the same story. */
  ghost predicate Agree(spec: Spec, attempts: seq<Attempt>) {
    var t := Trace(spec, attempts);
    && FailureRun(t) == Streak(spec, attempts)
    && EdgeMessages(spec, t) == AlarmMessages(spec, attempts)
    && LastError(spec, t) == LastMessage(spec, attempts)
    && Count(t, Ran) == CountPassed(spec, attempts, Running)
    && Count(t, DidFail) == CountPassed(spec, attempts, Failing)
    && Count(t, WasPaused) == CountPassed(spec, attempts, Refused)
    && Count(t, WasSkipped) == CountTurnedAway(spec, attempts)
    && (Held(spec, t) <==> spec.leader && CountPassed(spec, attempts, Any) > 0)
  }

  /** One more event on a trace. */
  lemma AgreeStep(spec: Spec, attempts: seq<Attempt>, t: seq<Event>, e: Event)
    requires attempts != [] && Agree(spec, attempts[..|attempts| - 1])
    requires var init := attempts[..|attempts| - 1];
      && t == Trace(spec, init) && Trace(spec, attempts) == t + [e]
      && After(spec, init).alive && e == EventOf(spec, After(spec, init).held, attempts[|attempts| - 1])
    ensures Agree(spec, attempts)
    ensures Ended(spec, t + [e]) <==> e.Crash? || HookPanics(spec, attempts)
  {
    var n := |attempts| - 1;
    EventIs(spec, After(spec, attempts[..n]).held, attempts[n]);
    SnocCounts(spec, t, e);
    Snoc(spec, t, e, Ran);
  }

  lemma {:induction false} TraceAgrees(spec: Spec, attempts: seq<Attempt>)
    ensures Agree(spec, attempts)
  {
    if attempts != [] {
      var n := |attempts| - 1;
      TraceAgrees(spec, attempts[..n]);
      var t, s := Trace(spec, attempts[..n]), After(spec, attempts[..n]);
      assert s.alive == !Ended(spec, t) && s.held == Held(spec, t) by { FiresMatchTrace(spec, attempts[..n]); }
      if s.alive { AgreeStep(spec, attempts, t, EventOf(spec, s.held, attempts[n])); }
    }
  }

  /** After any attempts, the state of a runner is what the attempts' own results make of it: the counters
      count the attempts turned away, refused, run and failed; the last error is what the last failing job
      said; the hook was called with what the job said at each alarm; and the job is degraded while the
      streak of failures is at least as long as the budget, and at least one. */
  lemma StateTellsAttempts(spec: Spec, attempts: seq<Attempt>)
    ensures
      var s, streak := After(spec, attempts), Streak(spec, attempts);
      && s.lastError == LastMessage(spec, attempts)
      && s.hooks == (if spec.hooked then AlarmMessages(spec, attempts) else [])
      && (s.degraded <==> streak >= 1 && streak >= spec.failureBudget)
      && s.consecutive == streak % 0x1_0000_0000
      && (s.held <==> spec.leader && CountPassed(spec, attempts, Any) > 0)
  {
    FiresMatchTrace(spec, attempts);
    TraceAgrees(spec, attempts);
  }

  lemma CountersTellAttempts(spec: Spec, attempts: seq<Attempt>)
    ensures
      var s := After(spec, attempts);
      && s.fires == CountPassed(spec, attempts, Running) % WORD
      && s.failures == CountPassed(spec, attempts, Failing) % WORD
      && s.skips == CountTurnedAway(spec, attempts) % WORD
      && s.paused == CountPassed(spec, attempts, Refused) % WORD
  {
    FiresMatchTrace(spec, attempts);
    TraceAgrees(spec, attempts);
  }

  /** An attempt ends the loop if and only if it is made, calls a closure that panics while building its
      future, or raises the alarm with a hook that panics. */
  lemma EndsLoop(spec: Spec, attempts: seq<Attempt>)
    requires attempts != []
    ensures
      var n := |attempts| - 1;
      var a := attempts[n];
      After(spec, attempts).alive <==>
        && After(spec, attempts[..n]).alive
        && !(Passed(spec, attempts) && Called(spec, a) && a.result.PanicsEagerly?)
        && !HookPanics(spec, attempts)
  {
    var n := |attempts| - 1;
    var t, s := Trace(spec, attempts[..n]), After(spec, attempts[..n]);
    assert s.alive == !Ended(spec, t) && s.held == Held(spec, t) by { FiresMatchTrace(spec, attempts[..n]); }
    assert After(spec, attempts).alive == !Ended(spec, Trace(spec, attempts)) by { FiresMatchTrace(spec, attempts); }
    if s.alive {
      TraceAgrees(spec, attempts[..n]);
      EventIs(spec, s.held, attempts[n]);
      AgreeStep(spec, attempts, t, EventOf(spec, s.held, attempts[n]));
    }
  }
}
