/** One job's fires (src/runner.rs): leader gate, circuit breaker, closure, counters, degraded edge.

    Lease replies, the breaker's verdict, what the closure does and whether the degradation hook
    panics are inputs of each attempt. Integer overflow wraps, as in the release profile. */
module Runner {
  import opened Options
  import opened Words

  const U32: nat := 0x1_0000_0000

  type Counter32 = x: nat | x < U32

  const JOB_PANIC_MESSAGE := "job panicked (panic payload has no Display)"
  const JOB_UNCLASSIFIED_MESSAGE := "job rejected by unclassified breaker error (timed out, or a future variant)"

  // ---- inputs

  /** What the closure does when invoked. An eager panic happens while the closure builds its future,
      before the panic guard wraps it. */
  datatype JobResult = Returns | Fails(message: string) | PanicsPolled | PanicsEagerly

  /** What the breaker decides about a call: refuse it, because the circuit is open or no probe slot is
      free, run it to its end, or cut it off; and whether it counts a call that gives it no result, one
      cut off or unwound, as a failure. */
  datatype Verdict = Open | NoProbe | Admit(counted: bool) | TimeOut(counted: bool) {
    predicate Refuses() { Open? || NoProbe? }
  }

  datatype Attempt = Attempt(renewed: bool, acquired: bool, verdict: Verdict, result: JobResult, hookPanics: bool)

  /** The parts of the job's registration that matter to a fire. */
  datatype Spec = Spec(leader: bool, useBreaker: bool, failureBudget: Counter32, hooked: bool)

  // ---- one fire

  datatype FireOutcome = Success | Failure(message: string) | Paused | Unwinds

  /** The plain path. */
  function InvokePlain(result: JobResult): FireOutcome {
    match result
    case Returns => Success
    case Fails(message) => Failure(message)
    case PanicsPolled => Failure(JOB_PANIC_MESSAGE)
    case PanicsEagerly => Unwinds
  }

  /** What the operation handed to the breaker comes to: the slot the breaker judges it by. */
  datatype OpResult = OpOk | OpErr(message: string) | OpUnwinds

  /** The operation moves job errors and caught panics into the error slot. */
  function Operation(result: JobResult): OpResult {
    match result
    case Returns => OpOk
    case Fails(message) => OpErr(message)
    case PanicsPolled => OpErr(JOB_PANIC_MESSAGE)
    case PanicsEagerly => OpUnwinds
  }

  datatype CallResult = CallOk | CircuitOpen | Rejected | CallFailure(message: string) | Timeout | CallUnwinds

  /** A breaker call: its result, how often it ran the operation, and what it recorded about it. */
  datatype Call = Call(result: CallResult, calls: nat, fed: seq<bool>)

  /** The breaker's contract. It knows an operation only by the slot of its result: it refuses without
      running it, or runs it once, records the slot and passes the result on, or cuts it off. Whether it
      records a call without a result is its own affair. */
  function BreakerCall(verdict: Verdict, op: OpResult): Call {
    match verdict
    case Open => Call(CircuitOpen, 0, [])
    case NoProbe => Call(Rejected, 0, [])
    case TimeOut(counted) => Call(if op.OpUnwinds? then CallUnwinds else Timeout, 1, if counted then [false] else [])
    case Admit(counted) =>
      match op
      case OpOk => Call(CallOk, 1, [true])
      case OpErr(message) => Call(CallFailure(message), 1, [false])
      case OpUnwinds => Call(CallUnwinds, 1, if counted then [false] else [])
  }

  /** How the runner reads the breaker's answer. */
  function Classify(result: CallResult): FireOutcome {
    match result
    case CallOk => Success
    case CircuitOpen => Paused
    case Rejected => Paused
    case CallFailure(message) => Failure(message)
    case Timeout => Failure(JOB_UNCLASSIFIED_MESSAGE)
    case CallUnwinds => Unwinds
  }

  /** One invocation: its outcome for the runner, the closure calls and the breaker's records. */
  datatype Invocation = Invocation(outcome: FireOutcome, calls: nat, fed: seq<bool>)

  function InvokeThroughBreaker(verdict: Verdict, result: JobResult): Invocation {
    var call := BreakerCall(verdict, Operation(result));
    Invocation(Classify(call.result), call.calls, call.fed)
  }

  function InvocationOf(spec: Spec, a: Attempt): Invocation {
    if spec.useBreaker then InvokeThroughBreaker(a.verdict, a.result) else Invocation(InvokePlain(a.result), 1, [])
  }

  /** A runner elected before renews and falls back to acquiring; any other acquires. */
  predicate Elected(spec: Spec, held: bool, a: Attempt) {
    !spec.leader || (if held then a.renewed || a.acquired else a.acquired)
  }

  /** What one attempt came to. A failure is unseen if the breaker cut it off without counting it; a
      crash is counted if the breaker took it for a failure. */
  datatype Event =
    | Skip
    | Pause
    | Done
    | Fail(message: string, unseen: bool, hookPanics: bool)
    | Crash(counted: bool)

  function EventOf(spec: Spec, held: bool, a: Attempt): Event {
    if Elected(spec, held, a) then EventOfOutcome(spec, a, InvocationOf(spec, a).outcome) else Skip
  }

  function EventOfOutcome(spec: Spec, a: Attempt, outcome: FireOutcome): Event {
    match outcome
    case Success => Done
    case Failure(message) => Fail(message, spec.useBreaker && a.verdict == TimeOut(false), a.hookPanics)
    case Paused => Pause
    case Unwinds => Crash(spec.useBreaker && a.verdict in {Admit(true), TimeOut(true)})
  }

  /** A runner's counters and flags, whether its loop still runs, and the hook calls it made. */
  datatype State = State(
    fires: Word, failures: Word, skips: Word, paused: Word, consecutive: Counter32, degraded: bool,
    lastError: Option<string>, held: bool, alive: bool, hooks: seq<string>)

  const FRESH := State(0, 0, 0, 0, 0, false, None, false, true, [])

  function Bump(x: Word): Word { (x + 1) % WORD }

  /** What an event alone does to a live runner's state. */
  function EventStep(spec: Spec, s: State, e: Event): State {
    match e
    case Skip => s.(skips := Bump(s.skips))
    case Pause => s.(held := s.held || spec.leader, paused := Bump(s.paused))
    case Crash(_) => s.(held := s.held || spec.leader, alive := false)
    case Done =>
      s.(held := s.held || spec.leader, fires := Bump(s.fires), consecutive := 0, degraded := false)
    case Fail(message, _, hookPanics) =>
      var c := (s.consecutive + 1) % U32;
      var calls := c >= spec.failureBudget && !s.degraded && spec.hooked;
      State(Bump(s.fires), Bump(s.failures), s.skips, s.paused, c, s.degraded || c >= spec.failureBudget,
            if calls && hookPanics then s.lastError else Some(message), s.held || spec.leader,
            !(calls && hookPanics), if calls then s.hooks + [message] else s.hooks)
  }

  /** One fire as a state change. A runner whose loop has unwound fires no more. */
  function FireStep(spec: Spec, s: State, a: Attempt): State {
    if s.alive then EventStep(spec, s, EventOf(spec, s.held, a)) else s
  }

  /** The state after any sequence of attempts on a fresh runner. */
  function After(spec: Spec, attempts: seq<Attempt>): State {
    if attempts == [] then FRESH
    else FireStep(spec, After(spec, attempts[..|attempts| - 1]), attempts[|attempts| - 1])
  }

  /** What the closure and the breaker saw of a runner: the calls of the one, the records of the other. */
  datatype Seen = Seen(invoked: nat, fed: seq<bool>)

  /** An attempt reaches them through its invocation, if it gets past the leader gate. */
  function SeenStep(spec: Spec, s: State, seen: Seen, a: Attempt): Seen {
    if s.alive && Elected(spec, s.held, a) then
      var i := InvocationOf(spec, a);
      Seen(seen.invoked + i.calls, seen.fed + i.fed)
    else seen
  }

  function SeenAfter(spec: Spec, attempts: seq<Attempt>): Seen {
    if attempts == [] then Seen(0, [])
    else
      var init := attempts[..|attempts| - 1];
      SeenStep(spec, After(spec, init), SeenAfter(spec, init), attempts[|attempts| - 1])
  }

  /** The runner object: its fields are updated one by one, in the order of the source. */
  class JobRunner {
    const spec: Spec
    var fires: Word
    var failures: Word
    var skips: Word
    var paused: Word
    var consecutive: Counter32
    var degraded: bool
    var lastError: Option<string>
    var leaderHeld: bool
    var alive: bool
    ghost var hooks: seq<string>
    ghost var invoked: nat
    ghost var fed: seq<bool>

    ghost function View(): State
      reads this
    {
      State(fires, failures, skips, paused, consecutive, degraded, lastError, leaderHeld, alive, hooks)
    }

    ghost function Sight(): Seen
      reads this
    {
      Seen(invoked, fed)
    }

    constructor (spec: Spec)
      ensures this.spec == spec && View() == FRESH && Sight() == Seen(0, [])
    {
      this.spec := spec;
      fires, failures, skips, paused, consecutive := 0, 0, 0, 0, 0;
      degraded, lastError, leaderHeld, alive := false, None, false, true;
      hooks, invoked, fed := [], 0, [];
    }

    /** One fire; `alive` turns false when it unwinds out of the loop. */
    method Fire(a: Attempt)
      requires alive
      modifies this
      ensures View() == FireStep(spec, old(View()), a)
      ensures Sight() == SeenStep(spec, old(View()), old(Sight()), a)
    {
      if spec.leader {
        var elected := if leaderHeld then a.renewed || a.acquired else a.acquired;
        if !elected {
          skips := Bump(skips);
          return;
        }
        leaderHeld := true;
      }
      var outcome := Invoke(a);
      Record(a, outcome);
    }

    /** Runs the closure, through the breaker or not; only the closure and the breaker notice. */
    method Invoke(a: Attempt) returns (outcome: FireOutcome)
      modifies this`invoked, this`fed
      ensures outcome == InvocationOf(spec, a).outcome
      ensures Sight() == Seen(old(invoked) + InvocationOf(spec, a).calls, old(fed) + InvocationOf(spec, a).fed)
    {
      if spec.useBreaker {
        var call := BreakerCall(a.verdict, Operation(a.result));
        invoked, fed := invoked + call.calls, fed + call.fed;
        outcome := Classify(call.result);
      } else {
        invoked := invoked + 1;
        outcome := InvokePlain(a.result);
      }
    }

    /** What the outcome of an elected attempt changes. */
    method Record(a: Attempt, outcome: FireOutcome)
      requires alive && (spec.leader ==> leaderHeld)
      modifies this
      ensures View() == EventStep(spec, old(View()), EventOfOutcome(spec, a, outcome)) && Sight() == old(Sight())
    {
      match outcome {
        case Success =>
          fires := Bump(fires);
          consecutive := 0;
          degraded := false;
        case Failure(message) =>
          RecordFailure(message, spec.useBreaker && a.verdict == TimeOut(false), a.hookPanics);
        case Paused =>
          paused := Bump(paused);
        case Unwinds =>
          alive := false;
      }
    }

    /** The failure arm: count, maybe cross the degraded edge, record the message last. */
    method RecordFailure(message: string, ghost unseen: bool, hookPanics: bool)
      requires alive && (spec.leader ==> leaderHeld)
      modifies this
      ensures View() == EventStep(spec, old(View()), Fail(message, unseen, hookPanics))
      ensures Sight() == old(Sight())
    {
      fires := Bump(fires);
      failures := Bump(failures);
      consecutive := (consecutive + 1) % U32;
      if consecutive >= spec.failureBudget {
        var was := degraded;
        degraded := true;
        if !was && spec.hooked {
          hooks := hooks + [message];
          if hookPanics {
            alive := false;
            return;
          }
        }
      }
      lastError := Some(message);
    }
  }

  // ---- the reference: what a sequence of attempts amounts to, without counters

  /** The events of the attempts that were made: nothing follows an attempt that unwound. */
  function Trace(spec: Spec, attempts: seq<Attempt>): seq<Event> {
    if attempts == [] then []
    else
      var t := Trace(spec, attempts[..|attempts| - 1]);
      if Ended(spec, t) then t else t + [EventOf(spec, Held(spec, t), attempts[|attempts| - 1])]
  }

  /** A leader job has been elected before. */
  predicate Held(spec: Spec, t: seq<Event>) {
    spec.leader && exists i :: 0 <= i < |t| && !t[i].Skip?
  }

  /** The length of the trailing run of failures; skips and pauses do not interrupt it. */
  function FailureRun(t: seq<Event>): nat {
    if t == [] then 0
    else
      var init := t[..|t| - 1];
      match t[|t| - 1]
      case Fail(_, _, _) => FailureRun(init) + 1
      case Done => 0
      case _ => FailureRun(init)
  }

  /** The run length that degrades a job: the budget, but at least one failure. */
  function Threshold(spec: Spec): nat { if spec.failureBudget == 0 then 1 else spec.failureBudget }

  /** The last event is the failure that took its run exactly to the threshold. */
  predicate AtEdge(spec: Spec, t: seq<Event>) {
    t != [] && t[|t| - 1].Fail? && FailureRun(t) == Threshold(spec)
  }

  /** The last attempt unwound: an eager panic, or a hook that panicked on the degraded edge. */
  predicate Ended(spec: Spec, t: seq<Event>) {
    t != [] && (t[|t| - 1].Crash? || (spec.hooked && AtEdge(spec, t) && t[|t| - 1].hookPanics))
  }

  /** The messages of the failures that took their run exactly to the threshold. */
  function EdgeMessages(spec: Spec, t: seq<Event>): seq<string> {
    if t == [] then []
    else EdgeMessages(spec, t[..|t| - 1]) + (if AtEdge(spec, t) then [t[|t| - 1].message] else [])
  }

  /** The most recent failure message, except one whose hook panicked. */
  function LastError(spec: Spec, t: seq<Event>): Option<string> {
    if t == [] then None
    else if t[|t| - 1].Fail? && !Ended(spec, t) then Some(t[|t| - 1].message)
    else LastError(spec, t[..|t| - 1])
  }

  function Count(t: seq<Event>, p: Event -> bool): nat {
    if t == [] then 0 else Count(t[..|t| - 1], p) + (if p(t[|t| - 1]) then 1 else 0)
  }

  /** The recorded successes and failures, in order. */
  function Recorded(t: seq<Event>): seq<bool> {
    if t == [] then []
    else
      var last := t[|t| - 1];
      Recorded(t[..|t| - 1]) + (if last.Done? then [true] else if last.Fail? then [false] else [])
  }

  /** What the breaker gets to see of them: all but the unseen failures, and crashes it counted. */
  function Verdicts(t: seq<Event>): seq<bool> {
    if t == [] then []
    else
      var last := t[|t| - 1];
      Verdicts(t[..|t| - 1]) + VerdictsOf(last)
  }

  function VerdictsOf(e: Event): seq<bool> {
    match e
    case Done => [true]
    case Fail(_, unseen, _) => if unseen then [] else [false]
    case Crash(counted) => if counted then [false] else []
    case _ => []
  }

  predicate Ran(e: Event) { e.Done? || e.Fail? }
  predicate DidFail(e: Event) { e.Fail? }
  predicate WasSkipped(e: Event) { e.Skip? }
  predicate WasPaused(e: Event) { e.Pause? }
  predicate DidCrash(e: Event) { e.Crash? }
  predicate WasUnseen(e: Event) { e.Fail? && e.unseen }
  predicate CalledClosure(e: Event) { e.Done? || e.Fail? || e.Crash? }

  /** What the counters must say about a trace. */
  function Tally(spec: Spec, t: seq<Event>): State {
    State(
      Count(t, Ran) % WORD, Count(t, DidFail) % WORD, Count(t, WasSkipped) % WORD, Count(t, WasPaused) % WORD,
      FailureRun(t) % U32, FailureRun(t) >= Threshold(spec),
      LastError(spec, t), Held(spec, t), !Ended(spec, t),
      if spec.hooked then EdgeMessages(spec, t) else [])
  }

  /** A counter that wraps at every bump is the count modulo 2^64. */
  lemma BumpCounts(n: nat)
    ensures Bump(n % WORD) == (n + 1) % WORD
  {
  }

  /** The edge is crossed by exactly one failure of a run, and stays crossed when the 32-bit counter
      wraps: by then the flag is up. */
  lemma EdgeSurvivesWrap(spec: Spec, run: nat)
    ensures
      var c := (run % U32 + 1) % U32;
      var over := c >= spec.failureBudget;
      && c == (run + 1) % U32
      && ((run >= Threshold(spec) || over) <==> run + 1 >= Threshold(spec))
      && ((over && run < Threshold(spec)) <==> run + 1 == Threshold(spec))
  {
  }

  /** The tally of a trace with one more event, component by component. */
  lemma Snoc(spec: Spec, t: seq<Event>, e: Event, p: Event -> bool)
    ensures var u := t + [e];
      && Count(u, p) == Count(t, p) + (if p(e) then 1 else 0)
      && (Held(spec, u) <==> Held(spec, t) || (spec.leader && !e.Skip?))
      && FailureRun(u) == (if e.Fail? then FailureRun(t) + 1 else if e.Done? then 0 else FailureRun(t))
      && EdgeMessages(spec, u) == EdgeMessages(spec, t) + (if AtEdge(spec, u) then [e.message] else [])
      && LastError(spec, u) == (if e.Fail? && !Ended(spec, u) then Some(e.message) else LastError(spec, t))
      && Verdicts(u) == Verdicts(t) + VerdictsOf(e)
  {
  }

  lemma SnocCounts(spec: Spec, t: seq<Event>, e: Event)
    ensures var u := t + [e];
      && Count(u, Ran) == Count(t, Ran) + (if e.Done? || e.Fail? then 1 else 0)
      && Count(u, DidFail) == Count(t, DidFail) + (if e.Fail? then 1 else 0)
      && Count(u, WasSkipped) == Count(t, WasSkipped) + (if e.Skip? then 1 else 0)
      && Count(u, WasPaused) == Count(t, WasPaused) + (if e.Pause? then 1 else 0)
      && Count(u, CalledClosure) == Count(t, CalledClosure) + (if e.Done? || e.Fail? || e.Crash? then 1 else 0)
  {
    Snoc(spec, t, e, Ran);
    Snoc(spec, t, e, DidFail);
    Snoc(spec, t, e, WasSkipped);
    Snoc(spec, t, e, WasPaused);
    Snoc(spec, t, e, CalledClosure);
  }

  lemma TallySkip(spec: Spec, t: seq<Event>, e: Event)
    requires !Ended(spec, t) && e.Skip?
    ensures Tally(spec, t + [e]) == EventStep(spec, Tally(spec, t), e)
  {
    SnocCounts(spec, t, e);
    Snoc(spec, t, e, Ran);
    BumpCounts(Count(t, WasSkipped));
  }

  lemma TallyPause(spec: Spec, t: seq<Event>, e: Event)
    requires !Ended(spec, t) && e.Pause?
    ensures Tally(spec, t + [e]) == EventStep(spec, Tally(spec, t), e)
  {
    SnocCounts(spec, t, e);
    Snoc(spec, t, e, Ran);
    BumpCounts(Count(t, WasPaused));
  }

  lemma TallyCrash(spec: Spec, t: seq<Event>, e: Event)
    requires !Ended(spec, t) && e.Crash?
    ensures Tally(spec, t + [e]) == EventStep(spec, Tally(spec, t), e)
  {
    SnocCounts(spec, t, e);
    Snoc(spec, t, e, Ran);
  }

  lemma TallyDone(spec: Spec, t: seq<Event>, e: Event)
    requires !Ended(spec, t) && e.Done?
    ensures Tally(spec, t + [e]) == EventStep(spec, Tally(spec, t), e)
  {
    SnocCounts(spec, t, e);
    Snoc(spec, t, e, Ran);
    BumpCounts(Count(t, Ran));
  }

  lemma TallyFail(spec: Spec, t: seq<Event>, e: Event)
    requires !Ended(spec, t) && e.Fail?
    ensures Tally(spec, t + [e]) == EventStep(spec, Tally(spec, t), e)
  {
    SnocCounts(spec, t, e);
    Snoc(spec, t, e, Ran);
    BumpCounts(Count(t, Ran));
    BumpCounts(Count(t, DidFail));
    EdgeSurvivesWrap(spec, FailureRun(t));
    assert AtEdge(spec, t + [e]) <==> FailureRun(t) + 1 == Threshold(spec);
  }

  /** One more event moves the tally as it moves the state. */
  lemma TallyEvent(spec: Spec, t: seq<Event>, e: Event)
    requires !Ended(spec, t)
    ensures Tally(spec, t + [e]) == EventStep(spec, Tally(spec, t), e)
  {
    match e {
      case Skip => TallySkip(spec, t, e);
      case Pause => TallyPause(spec, t, e);
      case Crash(_) => TallyCrash(spec, t, e);
      case Done => TallyDone(spec, t, e);
      case Fail(_, _, _) => TallyFail(spec, t, e);
    }
  }

  /** The counters, the degraded flag, the hook calls, the last error and the leader flag are, after any
      sequence of attempts, exactly what the trace amounts to. */
  lemma {:induction false} FiresMatchTrace(spec: Spec, attempts: seq<Attempt>)
    ensures After(spec, attempts) == Tally(spec, Trace(spec, attempts))
  {
    if attempts != [] {
      var n := |attempts| - 1;
      FiresMatchTrace(spec, attempts[..n]);
      var t := Trace(spec, attempts[..n]);
      if !Ended(spec, t) { TallyEvent(spec, t, EventOf(spec, Held(spec, t), attempts[n])); }
    }
  }

  // ---- what follows for the reader of a report

  /** The closed runs of failures that reached the threshold before a success ended them. */
  function FinishedDegradations(spec: Spec, t: seq<Event>): nat {
    if t == [] then 0
    else
      var init := t[..|t| - 1];
      FinishedDegradations(spec, init)
      + (if t[|t| - 1].Done? && FailureRun(init) >= Threshold(spec) then 1 else 0)
  }

  /** The hook fires once per maximal failure run that reaches the threshold: the finished ones, and
      the current one if the job is degraded now. */
  lemma {:induction false} OneHookPerDegradation(spec: Spec, t: seq<Event>)
    ensures |EdgeMessages(spec, t)|
         == FinishedDegradations(spec, t) + (if FailureRun(t) >= Threshold(spec) then 1 else 0)
  {
    if t != [] { OneHookPerDegradation(spec, t[..|t| - 1]); }
  }

  /** Degraded edge, over whole traces: the flag is up exactly while the trailing failure run is at
      least max(1, budget) long, and the hook was called once per maximal run that got there. */
  lemma DegradedEdge(spec: Spec, attempts: seq<Attempt>)
    ensures
      var s, t := After(spec, attempts), Trace(spec, attempts);
      && (s.degraded <==> FailureRun(t) >= Threshold(spec))
      && (spec.hooked ==> (
            && s.hooks == EdgeMessages(spec, t)
            && |s.hooks| == FinishedDegradations(spec, t) + (if s.degraded then 1 else 0)))
      && (!spec.hooked ==> s.hooks == [])
  {
    FiresMatchTrace(spec, attempts);
    OneHookPerDegradation(spec, Trace(spec, attempts));
  }

  lemma {:induction false} EventsPartition(t: seq<Event>)
    ensures Count(t, Ran) + Count(t, WasSkipped) + Count(t, WasPaused) + Count(t, DidCrash) == |t|
    ensures Count(t, CalledClosure) == Count(t, Ran) + Count(t, DidCrash)
  {
    if t != [] { EventsPartition(t[..|t| - 1]); }
  }

  /** Nothing follows a crash, so a trace has at most one, at its end. */
  lemma {:induction false} OnlyTheLastCrashes(spec: Spec, attempts: seq<Attempt>)
    ensures var t := Trace(spec, attempts);
      Count(t, DidCrash) == if t != [] && t[|t| - 1].Crash? then 1 else 0
  {
    if attempts != [] {
      var n := |attempts| - 1;
      OnlyTheLastCrashes(spec, attempts[..n]);
      var t := Trace(spec, attempts[..n]);
      if !Ended(spec, t) {
        var e := EventOf(spec, Held(spec, t), attempts[n]);
        Snoc(spec, t, e, DidCrash);
      }
    }
  }

  lemma {:induction false} AliveMadeAll(spec: Spec, attempts: seq<Attempt>)
    ensures !Ended(spec, Trace(spec, attempts)) ==> |Trace(spec, attempts)| == |attempts|
    ensures |Trace(spec, attempts)| <= |attempts|
  {
    if attempts != [] { AliveMadeAll(spec, attempts[..|attempts| - 1]); }
  }

  /** Attempt k is made, because the loop still runs, and gets past the leader gate. */
  predicate Reaches(spec: Spec, attempts: seq<Attempt>, k: nat)
    requires k < |attempts|
  {
    var s := After(spec, attempts[..k]);
    s.alive && Elected(spec, s.held, attempts[k])
  }

  /** Attempt k calls the closure, which panics while it builds its future. */
  predicate Escapes(spec: Spec, attempts: seq<Attempt>, k: nat)
    requires k < |attempts|
  {
    Reaches(spec, attempts, k) && attempts[k].result.PanicsEagerly? && !(spec.useBreaker && attempts[k].verdict.Refuses())
  }

  /** Attempt k calls the closure, and the breaker cuts it off and does not count it. */
  predicate CutShort(spec: Spec, attempts: seq<Attempt>, k: nat)
    requires k < |attempts|
  {
    Reaches(spec, attempts, k) && !attempts[k].result.PanicsEagerly? && spec.useBreaker && attempts[k].verdict == TimeOut(false)
  }

  /** The trace has one event for each attempt made while the loop runs. */
  lemma {:induction false} TraceAt(spec: Spec, attempts: seq<Attempt>, k: nat)
    requires k < |attempts|
    ensures
      var s, t := After(spec, attempts[..k]), Trace(spec, attempts);
      && (k < |t| <==> s.alive)
      && (k < |t| ==> t[k] == EventOf(spec, s.held, attempts[k]))
  {
    var n := |attempts| - 1;
    AliveMadeAll(spec, attempts[..n]);
    if k == n {
      FiresMatchTrace(spec, attempts[..n]);
    } else {
      assert attempts[..n][..k] == attempts[..k];
      TraceAt(spec, attempts[..n], k);
    }
  }

  /** No attempt escapes the panic guard. */
  ghost predicate Guarded(spec: Spec, attempts: seq<Attempt>) {
    forall k :: 0 <= k < |attempts| ==> !Escapes(spec, attempts, k)
  }

  /** Every attempt that is cut off is counted. */
  ghost predicate CutOffsCounted(spec: Spec, attempts: seq<Attempt>) {
    forall k :: 0 <= k < |attempts| ==> !CutShort(spec, attempts, k)
  }

  lemma TraceTells(spec: Spec, attempts: seq<Attempt>, k: nat)
    requires k < |attempts|
    ensures
      var t := Trace(spec, attempts);
      && (Escapes(spec, attempts, k) <==> k < |t| && DidCrash(t[k]))
      && (CutShort(spec, attempts, k) <==> k < |t| && WasUnseen(t[k]))
  {
    TraceAt(spec, attempts, k);
  }

  /** The trace has a crash exactly if some attempt escapes the panic guard, and a failure the breaker
      did not see exactly if some attempt was cut off and not counted. */
  lemma TraceTellsAll(spec: Spec, attempts: seq<Attempt>)
    ensures Count(Trace(spec, attempts), DidCrash) == 0 <==> Guarded(spec, attempts)
    ensures Count(Trace(spec, attempts), WasUnseen) == 0 <==> CutOffsCounted(spec, attempts)
  {
    var t := Trace(spec, attempts);
    AliveMadeAll(spec, attempts);
    forall k | 0 <= k < |attempts|
      ensures Escapes(spec, attempts, k) <==> k < |t| && DidCrash(t[k])
      ensures CutShort(spec, attempts, k) <==> k < |t| && WasUnseen(t[k])
    {
      TraceTells(spec, attempts, k);
    }
    NoneCounted(t, DidCrash);
    NoneCounted(t, WasUnseen);
  }

  lemma {:induction false} NoneCounted(t: seq<Event>, p: Event -> bool)
    ensures Count(t, p) == 0 <==> forall k :: 0 <= k < |t| ==> !p(t[k])
  {
    if t != [] { NoneCounted(t[..|t| - 1], p); }
  }

  /** Fires, skips and pauses account for all fire calls made, and fires for all closure calls, if and
      only if `complete` holds. */
  ghost predicate Accounted(s: State, invoked: nat, made: nat, complete: bool) {
    && ((s.fires + s.skips + s.paused) % WORD == made % WORD <==> complete)
    && (invoked % WORD == s.fires <==> complete)
  }

  /** Attempt conservation: fires, skips and pauses account for every fire call if and only if no
      attempt calls a closure that panics while building its future; that one call is in no counter.
      The closure calls obey the same rule. */
  lemma Conservation(spec: Spec, attempts: seq<Attempt>)
    ensures
      var s, t := After(spec, attempts), Trace(spec, attempts);
      && Accounted(s, SeenAfter(spec, attempts).invoked, |t|, Guarded(spec, attempts))
      && (s.alive ==> Guarded(spec, attempts) && |t| == |attempts|)
  {
    AliveMissedNothing(spec, attempts);
    TraceTellsAll(spec, attempts);
    AllButCrashes(spec, attempts);
  }

  lemma AliveMissedNothing(spec: Spec, attempts: seq<Attempt>)
    ensures var t := Trace(spec, attempts);
      After(spec, attempts).alive ==> Count(t, DidCrash) == 0 && |t| == |attempts|
  {
    AliveMadeAll(spec, attempts);
    FiresMatchTrace(spec, attempts);
    OnlyTheLastCrashes(spec, attempts);
  }

  lemma AllButCrashes(spec: Spec, attempts: seq<Attempt>)
    ensures var t := Trace(spec, attempts);
      Accounted(After(spec, attempts), SeenAfter(spec, attempts).invoked, |t|, Count(t, DidCrash) == 0)
  {
    FiresMatchTrace(spec, attempts);
    assert SeenAfter(spec, attempts).invoked == Count(Trace(spec, attempts), CalledClosure) by { SeenMatchesTrace(spec, attempts); }
    OnlyTheLastCrashes(spec, attempts);
    TallyMissesCrashes(spec, Trace(spec, attempts));
  }

  lemma TallyMissesCrashes(spec: Spec, t: seq<Event>)
    requires Count(t, DidCrash) <= 1
    ensures Accounted(Tally(spec, t), Count(t, CalledClosure), |t|, Count(t, DidCrash) == 0)
  {
    EventsPartition(t);
    Accounts(Count(t, Ran), Count(t, WasSkipped), Count(t, WasPaused), Count(t, DidCrash), |t|, Count(t, CalledClosure));
  }

  lemma Accounts(a: nat, b: nat, c: nat, extra: nat, total: nat, calls: nat)
    requires extra <= 1 && total == a + b + c + extra && calls == a + extra
    ensures (a % WORD + b % WORD + c % WORD) % WORD == total % WORD <==> extra == 0
    ensures calls % WORD == a % WORD <==> extra == 0
  {
    ModAddLeft(a, b % WORD + c % WORD);
    ModAddLeft(b, a + c % WORD);
    ModAddLeft(c, a + b);
    ModEqual(total, a + b + c);
    ModEqual(calls, a);
  }

  /** A job that panics while building its future is in no counter. */
  lemma EagerPanicIsUncounted()
    ensures
      var spec, attempts := Spec(false, false, 5, false), [Attempt(true, true, Admit(false), PanicsEagerly, false)];
      var s := After(spec, attempts);
      s.fires == s.skips == s.paused == 0 && SeenAfter(spec, attempts).invoked == 1 && !s.alive
  {
    var a := Attempt(true, true, Admit(false), PanicsEagerly, false);
    assert [a][..0] == [];
    assert After(Spec(false, false, 5, false), []) == FRESH;
  }

  // ---- what the breaker gets to see

  /** What an invocation did outside agrees with the event the runner records for it. */
  lemma InvocationMatchesEvent(spec: Spec, a: Attempt)
    ensures
      var i := InvocationOf(spec, a);
      var e := EventOfOutcome(spec, a, i.outcome);
      && i.calls == (if CalledClosure(e) then 1 else 0)
      && i.fed == (if spec.useBreaker then VerdictsOf(e) else [])
  {
  }

  lemma SeenStepMatchesEvent(spec: Spec, s: State, seen: Seen, a: Attempt)
    requires s.alive
    ensures
      var u, e := SeenStep(spec, s, seen, a), EventOf(spec, s.held, a);
      && u.invoked == seen.invoked + (if CalledClosure(e) then 1 else 0)
      && u.fed == seen.fed + (if spec.useBreaker then VerdictsOf(e) else [])
  {
    InvocationMatchesEvent(spec, a);
  }

  /** The closure is called once for each fire or crash, and the breaker's records are the recorded
      successes and failures, but for calls without a result, of which it counts what it likes. */
  lemma {:induction false} SeenMatchesTrace(spec: Spec, attempts: seq<Attempt>)
    ensures
      var t := Trace(spec, attempts);
      SeenAfter(spec, attempts) == Seen(Count(t, CalledClosure), if spec.useBreaker then Verdicts(t) else [])
  {
    if attempts != [] {
      var n := |attempts| - 1;
      SeenMatchesTrace(spec, attempts[..n]);
      var t, s := Trace(spec, attempts[..n]), After(spec, attempts[..n]);
      assert s.alive == !Ended(spec, t) && s.held == Held(spec, t) by { FiresMatchTrace(spec, attempts[..n]); }
      if s.alive {
        var e := EventOf(spec, s.held, attempts[n]);
        Snoc(spec, t, e, CalledClosure);
        SeenStepMatchesEvent(spec, s, SeenAfter(spec, attempts[..n]), attempts[n]);
      }
    }
  }

  /** What the breaker should learn from an attempt that calls the closure: what the job did, if it
      ran to its end, and else, if the breaker counts that, a failure. */
  function JobDid(verdict: Verdict, result: JobResult): seq<bool> {
    if verdict.Refuses() then []
    else if verdict.TimeOut? || result.PanicsEagerly? then (if verdict.counted then [false] else [])
    else [result.Returns?]
  }

  function JobsDid(spec: Spec, attempts: seq<Attempt>): seq<bool> {
    if attempts == [] then []
    else
      var n := |attempts| - 1;
      JobsDid(spec, attempts[..n])
      + (if Reaches(spec, attempts, n) then JobDid(attempts[n].verdict, attempts[n].result) else [])
  }

  /** The breaker is told the truth about every job that ran to its end, failures and panics as
      failures, whatever it makes of calls that give no result. */
  lemma {:induction false} BreakerIsToldTheTruth(spec: Spec, attempts: seq<Attempt>)
    requires spec.useBreaker
    ensures SeenAfter(spec, attempts).fed == JobsDid(spec, attempts)
  {
    if attempts != [] {
      var n := |attempts| - 1;
      BreakerIsToldTheTruth(spec, attempts[..n]);
      FedByResult(attempts[n].verdict, attempts[n].result);
    }
  }

  lemma FedByResult(verdict: Verdict, result: JobResult)
    ensures InvokeThroughBreaker(verdict, result).fed == JobDid(verdict, result)
  {
  }

  /** The failure a breaker counts for a crash, which the runner does not record. */
  function CrashRecord(t: seq<Event>): seq<bool> {
    if t != [] && t[|t| - 1].Crash? && t[|t| - 1].counted then [false] else []
  }

  /** Only the last event is a crash. */
  ghost predicate CrashesOnlyLast(t: seq<Event>) {
    forall k :: 0 <= k < |t| - 1 ==> !t[k].Crash?
  }

  lemma {:induction false} VerdictsOfRecorded(t: seq<Event>)
    requires CrashesOnlyLast(t)
    ensures |Verdicts(t)| + Count(t, WasUnseen) == |Recorded(t)| + |CrashRecord(t)|
    ensures Count(t, WasUnseen) == 0 ==> Verdicts(t) == Recorded(t) + CrashRecord(t)
    ensures |Recorded(t)| == Count(t, Ran)
  {
    if t != [] { VerdictsOfRecorded(t[..|t| - 1]); }
  }

  lemma {:induction false} CrashesLast(spec: Spec, attempts: seq<Attempt>)
    ensures CrashesOnlyLast(Trace(spec, attempts))
  {
    if attempts != [] {
      var n := |attempts| - 1;
      CrashesLast(spec, attempts[..n]);
      var u, t := Trace(spec, attempts[..n]), Trace(spec, attempts);
      forall k | 0 <= k < |t| - 1 ensures !t[k].Crash? { assert t[k] == u[k]; }
    }
  }

  /** The breaker is fed exactly the recorded successes and failures, in order, and the crash if it
      counts that, if and only if it counts every attempt it cuts off; otherwise those it does not count
      are missing. Attempts it refuses call no closure. */
  lemma BreakerSeesWhatIsRecorded(spec: Spec, attempts: seq<Attempt>)
    requires spec.useBreaker
    ensures
      var fed, t := SeenAfter(spec, attempts).fed, Trace(spec, attempts);
      && fed == Verdicts(t)
      && (fed == Recorded(t) + CrashRecord(t) <==> CutOffsCounted(spec, attempts))
      && |Recorded(t)| % WORD == After(spec, attempts).fires
      && (After(spec, attempts).alive ==> CrashRecord(t) == [])
  {
    FiresMatchTrace(spec, attempts);
    SeenMatchesTrace(spec, attempts);
    TraceTellsAll(spec, attempts);
    CrashesLast(spec, attempts);
    VerdictsOfRecorded(Trace(spec, attempts));
  }

  /** An operation makes an admitting breaker invisible if and only if it is the one of the source: job
      errors and caught panics in the error slot, with their messages. */
  lemma OnlyThisOperationIsTransparent(op: JobResult -> OpResult, counted: bool)
    ensures (forall r :: Classify(BreakerCall(Admit(counted), op(r)).result) == InvokePlain(r))
       <==> (forall r :: op(r) == Operation(r))
  {
    forall r ensures Classify(BreakerCall(Admit(counted), op(r)).result) == InvokePlain(r) <==> op(r) == Operation(r) {}
  }

  /** A breaker that admits every call changes nothing a report shows: errors and panics reach the
      counters through it exactly as without it, and the closure is called as often. */
  lemma {:induction false} AdmittingBreakerIsTransparent(spec: Spec, attempts: seq<Attempt>)
    requires forall i :: 0 <= i < |attempts| ==> attempts[i].verdict.Admit?
    ensures
      var on, off := spec.(useBreaker := true), spec.(useBreaker := false);
      && After(on, attempts) == After(off, attempts)
      && SeenAfter(on, attempts).invoked == SeenAfter(off, attempts).invoked
  {
    if attempts != [] {
      var n := |attempts| - 1;
      AdmittingBreakerIsTransparent(spec, attempts[..n]);
      AdmittedEvent(spec, After(spec.(useBreaker := true), attempts[..n]), attempts[n]);
    }
  }

  lemma AdmittedEvent(spec: Spec, s: State, a: Attempt)
    requires a.verdict.Admit?
    ensures
      var on, off := spec.(useBreaker := true), spec.(useBreaker := false);
      && FireStep(on, s, a) == FireStep(off, s, a)
      && InvocationOf(on, a).calls == InvocationOf(off, a).calls
  {
    var on, off := spec.(useBreaker := true), spec.(useBreaker := false);
    assert InvocationOf(on, a).outcome == InvocationOf(off, a).outcome;
    if Elected(spec, s.held, a) { OutcomeDecides(spec, s, a, InvocationOf(on, a).outcome); }
  }

  lemma OutcomeDecides(spec: Spec, s: State, a: Attempt, outcome: FireOutcome)
    requires a.verdict.Admit?
    ensures
      var on, off := spec.(useBreaker := true), spec.(useBreaker := false);
      EventStep(on, s, EventOfOutcome(on, a, outcome)) == EventStep(off, s, EventOfOutcome(off, a, outcome))
  {
  }

  /** The leader flag only grows. */
  lemma {:induction false} HeldOnlyGrows(spec: Spec, attempts: seq<Attempt>, k: nat)
    requires k <= |attempts| && After(spec, attempts[..k]).held
    ensures After(spec, attempts).held
  {
    if k == |attempts| {
      assert attempts[..k] == attempts;
    } else {
      var n := |attempts| - 1;
      assert attempts[..n][..k] == attempts[..k];
      HeldOnlyGrows(spec, attempts[..n], k);
    }
  }
}
