/** Live snapshots of a runner's counters (`status` and `summary` of src/runner.rs), read field by
    field while a fire may be writing. One step is one atomic load or one atomic store, and all of them
    take effect in one common order. */
module Snapshot {
  import opened Options
  import opened Words
  import opened Runner

  datatype Counters = Counters(
    fires: Word, failures: Word, skips: Word, paused: Word, consecutive: Counter32, degraded: bool,
    lastError: Option<string>)

  function CountersOf(s: State): Counters {
    Counters(s.fires, s.failures, s.skips, s.paused, s.consecutive, s.degraded, s.lastError)
  }

  /** The stores a fire makes. */
  datatype Write =
    | FiresUp | FailuresUp | SkipsUp | PausedUp | ConsecutiveUp | ConsecutiveReset
    | SetDegraded(flag: bool) | SetError(message: string)

  function Apply(c: Counters, w: Write): Counters {
    match w
    case FiresUp => c.(fires := Bump(c.fires))
    case FailuresUp => c.(failures := Bump(c.failures))
    case SkipsUp => c.(skips := Bump(c.skips))
    case PausedUp => c.(paused := Bump(c.paused))
    case ConsecutiveUp => c.(consecutive := (c.consecutive + 1) % U32)
    case ConsecutiveReset => c.(consecutive := 0)
    case SetDegraded(flag) => c.(degraded := flag)
    case SetError(message) => c.(lastError := Some(message))
  }

  function ApplyAll(c: Counters, ws: seq<Write>): Counters
    decreases |ws|
  {
    if ws == [] then c else ApplyAll(Apply(c, ws[0]), ws[1..])
  }

  /** The stores of one fire, in program order; the fire is the only writer, so what it will write is
      settled when it starts. */
  function WritesOf(spec: Spec, c: Counters, e: Event): seq<Write> {
    match e
    case Skip => [SkipsUp]
    case Pause => [PausedUp]
    case Crash(_) => []
    case Done => [FiresUp, ConsecutiveReset, SetDegraded(false)]
    case Fail(message, _, hookPanics) =>
      var over := (c.consecutive + 1) % U32 >= spec.failureBudget;
      [FiresUp, FailuresUp, ConsecutiveUp]
      + (if over then [SetDegraded(true)] else [])
      + (if over && !c.degraded && spec.hooked && hookPanics then [] else [SetError(message)])
  }

  /** Store by store, a fire does what `EventStep` does at once. */
  lemma WritesAmountToEvent(spec: Spec, s: State, e: Event)
    requires s.alive
    ensures ApplyAll(CountersOf(s), WritesOf(spec, CountersOf(s), e)) == CountersOf(EventStep(spec, s, e))
  {
    var c := CountersOf(s);
    var ws := WritesOf(spec, c, e);
    match e {
      case Skip => ApplyOne(c, SkipsUp, []);
      case Pause => ApplyOne(c, PausedUp, []);
      case Crash(_) =>
      case Done =>
        ApplyThree(c, FiresUp, ConsecutiveReset, SetDegraded(false));
      case Fail(message, _, hookPanics) => FailWrites(spec, s, e);
    }
  }

  lemma ApplyOne(c: Counters, w: Write, rest: seq<Write>)
    ensures ApplyAll(c, [w] + rest) == ApplyAll(Apply(c, w), rest)
    ensures [w] + [] == [w]
  {
    assert ([w] + rest)[1..] == rest;
  }

  lemma FailWrites(spec: Spec, s: State, e: Event)
    requires s.alive && e.Fail?
    ensures ApplyAll(CountersOf(s), WritesOf(spec, CountersOf(s), e)) == CountersOf(EventStep(spec, s, e))
  {
    var c := CountersOf(s);
    var over := (c.consecutive + 1) % U32 >= spec.failureBudget;
    var flag := if over then [SetDegraded(true)] else [];
    var error := if over && !c.degraded && spec.hooked && e.hookPanics then [] else [SetError(e.message)];
    var counts := [FiresUp, FailuresUp, ConsecutiveUp];
    var d := Apply(Apply(Apply(c, FiresUp), FailuresUp), ConsecutiveUp);
    var g := if over then Apply(d, SetDegraded(true)) else d;
    assert ApplyAll(c, counts) == d by { ApplyThree(c, FiresUp, FailuresUp, ConsecutiveUp); }
    assert ApplyAll(d, flag) == g by { ApplyOne(d, SetDegraded(true), []); }
    ApplyConcat(c, counts, flag);
    ApplyConcat(c, counts + flag, error);
    ApplyOne(g, SetError(e.message), []);
  }

  lemma ApplyThree(c: Counters, u: Write, v: Write, w: Write)
    ensures ApplyAll(c, [u, v, w]) == Apply(Apply(Apply(c, u), v), w)
  {
    assert [u, v, w] == [u] + [v, w] && [v, w] == [v] + [w] && [w] == [w] + [];
    ApplyOne(c, u, [v, w]);
    ApplyOne(Apply(c, u), v, [w]);
    ApplyOne(Apply(Apply(c, u), v), w, []);
  }

  lemma {:induction false} ApplyConcat(c: Counters, a: seq<Write>, b: seq<Write>)
    ensures ApplyAll(c, a + b) == ApplyAll(ApplyAll(c, a), b)
    decreases |a|
  {
    if a == [] {
      assert a + b == b;
    } else {
      assert (a + b)[1..] == a[1..] + b;
      ApplyConcat(Apply(c, a[0]), a[1..], b);
    }
  }

  // ---- one writer, any number of readers

  /** A snapshot being read: the number of stores made when it was opened and at each load so far,
      and what was loaded. */
  datatype Reader = Closed | Reading(begin: nat, at: seq<nat>, got: Counters)

  /** A finished snapshot, with the number of stores made before it was opened, at each load, and
      before it was closed. */
  datatype Shot = Shot(begin: nat, at: seq<nat>, end: nat, got: Counters)

  /** `stores` are the stores made, `log[k]` is the memory after k of them; the last entry is the
      memory now. `events` are the attempts recorded so far, the last perhaps with stores still to do. */
  datatype World = World(
    log: seq<Counters>, stores: seq<Write>, todo: seq<Write>, events: seq<Event>, readers: seq<Reader>, shots: seq<Shot>)

  const ZERO := Counters(0, 0, 0, 0, 0, false, None)

  function Opening(readers: nat): World {
    World([ZERO], [], [], [], seq(readers, _ => Closed), [])
  }

  const FIELDS: nat := 7

  /** Loads field number `f`, in the order of the source. */
  function Load(got: Counters, from: Counters, f: nat): Counters {
    if f == 0 then got.(fires := from.fires)
    else if f == 1 then got.(failures := from.failures)
    else if f == 2 then got.(skips := from.skips)
    else if f == 3 then got.(paused := from.paused)
    else if f == 4 then got.(consecutive := from.consecutive)
    else if f == 5 then got.(degraded := from.degraded)
    else got.(lastError := from.lastError)
  }

  predicate SameField(a: Counters, b: Counters, f: nat) {
    if f == 0 then a.fires == b.fires
    else if f == 1 then a.failures == b.failures
    else if f == 2 then a.skips == b.skips
    else if f == 3 then a.paused == b.paused
    else if f == 4 then a.consecutive == b.consecutive
    else if f == 5 then a.degraded == b.degraded
    else a.lastError == b.lastError
  }

  datatype Action =
    | Begin(event: Event)      // the writer starts recording an attempt, unless its loop has unwound
    | Store                    // the writer makes its next store
    | Read(reader: nat)        // a reader opens, loads its next field, or closes

  function ReadStep(w: World, r: nat): World
    requires |w.log| > 0 && r < |w.readers|
  {
    var now := |w.log| - 1;
    match w.readers[r]
    case Closed => w.(readers := w.readers[r := Reading(now, [], ZERO)])
    case Reading(begin, at, got) =>
      if |at| < FIELDS then
        w.(readers := w.readers[r := Reading(begin, at + [now], Load(got, w.log[now], |at|))])
      else
        w.(readers := w.readers[r := Closed], shots := w.shots + [Shot(begin, at, now, got)])
  }

  function Step(spec: Spec, w: World, a: Action): (u: World)
    requires |w.log| > 0
    ensures |u.log| >= |w.log|
  {
    match a
    case Begin(e) =>
      if w.todo == [] && !Ended(spec, w.events) then
        w.(todo := WritesOf(spec, w.log[|w.log| - 1], e), events := w.events + [e])
      else w
    case Store =>
      if w.todo == [] then w
      else w.(log := w.log + [Apply(w.log[|w.log| - 1], w.todo[0])], stores := w.stores + [w.todo[0]], todo := w.todo[1..])
    case Read(r) => if r < |w.readers| then ReadStep(w, r) else w
  }

  function Run(spec: Spec, readers: nat, run: seq<Action>): (w: World)
    ensures |w.log| > 0
  {
    if run == [] then Opening(readers) else Step(spec, Run(spec, readers, run[..|run| - 1]), run[|run| - 1])
  }

  // ---- every field is a true value from within the window

  /** The fields loaded so far are the memory's at moments in order between `begin` and `end`. */
  ghost predicate AllSeen(log: seq<Counters>, begin: nat, at: seq<nat>, end: nat, got: Counters) {
    && begin <= end < |log| && |at| <= FIELDS
    && (forall f :: 0 <= f < |at| ==> begin <= at[f] <= end && SameField(log[at[f]], got, f))
    && (forall f, g :: 0 <= f < g < |at| ==> at[f] <= at[g])
  }

  ghost predicate TrueReader(log: seq<Counters>, reader: Reader) {
    |log| > 0 && (reader.Reading? ==> AllSeen(log, reader.begin, reader.at, |log| - 1, reader.got))
  }

  ghost predicate TrueShot(log: seq<Counters>, shot: Shot) {
    |shot.at| == FIELDS && AllSeen(log, shot.begin, shot.at, shot.end, shot.got)
  }

  /** The log is what the stores make of it, one by one. */
  ghost predicate Linked(log: seq<Counters>, stores: seq<Write>) {
    |log| == |stores| + 1 && forall k :: 0 <= k < |stores| ==> log[k + 1] == Apply(log[k], stores[k])
  }

  ghost predicate Truthful(w: World) {
    && Linked(w.log, w.stores)
    && (forall r :: 0 <= r < |w.readers| ==> TrueReader(w.log, w.readers[r]))
    && (forall k :: 0 <= k < |w.shots| ==> TrueShot(w.log, w.shots[k]))
  }

  lemma AllSeenGrows(log: seq<Counters>, more: seq<Counters>, begin: nat, at: seq<nat>, end: nat, end': nat, got: Counters)
    requires log <= more && end <= end' < |more| && AllSeen(log, begin, at, end, got)
    ensures AllSeen(more, begin, at, end', got)
  {
    forall f | 0 <= f < |at| ensures SameField(more[at[f]], got, f) { assert more[at[f]] == log[at[f]]; }
  }

  lemma StoreKeepsTruthful(w: World, write: Write, todo: seq<Write>)
    requires Truthful(w)
    ensures Truthful(w.(log := w.log + [Apply(w.log[|w.log| - 1], write)], stores := w.stores + [write], todo := todo))
  {
    var log := w.log + [Apply(w.log[|w.log| - 1], write)];
    forall r | 0 <= r < |w.readers| ensures TrueReader(log, w.readers[r]) {
      var reader := w.readers[r];
      assert TrueReader(w.log, reader);
      if reader.Reading? {
        AllSeenGrows(w.log, log, reader.begin, reader.at, |w.log| - 1, |log| - 1, reader.got);
      }
    }
    forall k | 0 <= k < |w.shots| ensures TrueShot(log, w.shots[k]) {
      var shot := w.shots[k];
      assert TrueShot(w.log, shot);
      AllSeenGrows(w.log, log, shot.begin, shot.at, shot.end, shot.end, shot.got);
    }
  }

  lemma ReadKeepsTruthful(w: World, r: nat)
    requires Truthful(w) && r < |w.readers|
    ensures Truthful(ReadStep(w, r))
  {
    var reader, u := w.readers[r], ReadStep(w, r);
    assert TrueReader(w.log, reader);
    if reader.Reading? && |reader.at| < FIELDS {
      LoadIsSeen(w.log, reader.begin, reader.at, reader.got);
      assert TrueReader(w.log, u.readers[r]);
    } else if reader.Reading? {
      assert TrueShot(w.log, u.shots[|w.shots|]);
    }
  }

  lemma LoadIsSeen(log: seq<Counters>, begin: nat, at: seq<nat>, got: Counters)
    requires |log| > 0 && |at| < FIELDS && AllSeen(log, begin, at, |log| - 1, got)
    ensures var now := |log| - 1; AllSeen(log, begin, at + [now], now, Load(got, log[now], |at|))
  {
    var now := |log| - 1;
    var at', got' := at + [now], Load(got, log[now], |at|);
    forall f | 0 <= f < |at'| ensures SameField(log[at'[f]], got', f) { LoadKeeps(got, log[now], |at|, f); }
  }

  lemma LoadKeeps(got: Counters, from: Counters, next: nat, f: nat)
    requires f <= next < FIELDS
    ensures if f == next then SameField(from, Load(got, from, next), f) else SameField(got, Load(got, from, next), f)
  {
  }

  /** Every field of a snapshot is the memory's at its load, all loads lie inside the window and in
      field order, in every interleaving. */
  lemma {:induction false} RunIsTruthful(spec: Spec, readers: nat, run: seq<Action>)
    ensures Truthful(Run(spec, readers, run))
  {
    if run != [] {
      var w, a := Run(spec, readers, run[..|run| - 1]), run[|run| - 1];
      RunIsTruthful(spec, readers, run[..|run| - 1]);
      match a {
        case Begin(_) =>
        case Store => if w.todo != [] { StoreKeepsTruthful(w, w.todo[0], w.todo[1..]); }
        case Read(r) => if r < |w.readers| { ReadKeepsTruthful(w, r); }
      }
    }
  }

  /** A snapshot's record is true: it is opened, loads each field in turn and is closed at the number of
      stores then made, and it loads what the memory then holds. */
  lemma ReadIsRecorded(w: World, r: nat)
    requires |w.log| > 0 && r < |w.readers|
    ensures
      var u, now := ReadStep(w, r), |w.log| - 1;
      && u.log == w.log && |u.readers| == |w.readers|
      && match w.readers[r]
         case Closed => u.readers[r].Reading? && u.readers[r].begin == now && u.readers[r].at == [] && u.shots == w.shots
         case Reading(begin, at, got) =>
           if |at| < 7 then
             && u.readers[r].Reading? && u.readers[r].begin == begin && u.readers[r].at == at + [now] && u.shots == w.shots
             && SameField(u.readers[r].got, w.log[now], |at|)
           else u.readers[r].Closed? && u.shots == w.shots + [Shot(begin, at, now, got)]
  {
  }

  // ---- memory agrees with the events

  /** What the recorded events amount to. */
  ghost function Expected(spec: Spec, events: seq<Event>): Counters { CountersOf(Tally(spec, events)) }

  /** The memory with the pending stores made is what the recorded events amount to. */
  ghost predicate Settled(spec: Spec, w: World) {
    |w.log| > 0 && ApplyAll(w.log[|w.log| - 1], w.todo) == Expected(spec, w.events)
  }

  lemma BeginKeepsSettled(spec: Spec, w: World, e: Event)
    requires Settled(spec, w) && w.todo == [] && !Ended(spec, w.events)
    ensures ApplyAll(w.log[|w.log| - 1], WritesOf(spec, w.log[|w.log| - 1], e)) == Expected(spec, w.events + [e])
  {
    TallyEvent(spec, w.events, e);
    EventWritten(spec, w.log[|w.log| - 1], Tally(spec, w.events), Tally(spec, w.events + [e]), e);
  }

  lemma EventWritten(spec: Spec, c: Counters, s: State, s': State, e: Event)
    requires s.alive && c == CountersOf(s) && s' == EventStep(spec, s, e)
    ensures ApplyAll(c, WritesOf(spec, c, e)) == CountersOf(s')
  {
    WritesAmountToEvent(spec, s, e);
  }

  lemma OtherStepsKeepGoal(spec: Spec, w: World, a: Action, goal: Counters)
    requires |w.log| > 0 && !a.Begin? && ApplyAll(w.log[|w.log| - 1], w.todo) == goal
    ensures var u := Step(spec, w, a);
      u.events == w.events && ApplyAll(u.log[|u.log| - 1], u.todo) == goal
  {
  }

  lemma StepKeepsSettled(spec: Spec, w: World, a: Action)
    requires Settled(spec, w)
    ensures Settled(spec, Step(spec, w, a))
  {
    match a {
      case Begin(e) => if w.todo == [] && !Ended(spec, w.events) { BeginKeepsSettled(spec, w, e); }
      case _ => OtherStepsKeepGoal(spec, w, a, Expected(spec, w.events));
    }
  }

  /** In every interleaving, the memory with the pending stores made is what the events amount to. */
  lemma {:induction false} MemoryMatchesEvents(spec: Spec, readers: nat, run: seq<Action>)
    ensures Settled(spec, Run(spec, readers, run))
  {
    if run == [] {
      assert Tally(spec, []) == FRESH;
    } else {
      MemoryMatchesEvents(spec, readers, run[..|run| - 1]);
      StepKeepsSettled(spec, Run(spec, readers, run[..|run| - 1]), run[|run| - 1]);
    }
  }

  lemma LastShotIsMemory(spec: Spec, readers: nat, run: seq<Action>, k: nat)
    requires var w := Run(spec, readers, run); k < |w.shots| && w.shots[k].begin == |w.log| - 1
    ensures var w := Run(spec, readers, run); w.shots[k].got == w.log[|w.log| - 1]
  {
    var w := Run(spec, readers, run);
    RunIsTruthful(spec, readers, run);
    assert TrueShot(w.log, w.shots[k]);
    QuietSnapshotIsExact(spec, readers, run, k);
  }

  lemma NothingPending(spec: Spec, w: World)
    requires Settled(spec, w) && w.todo == []
    ensures w.log[|w.log| - 1] == Expected(spec, w.events)
  {
  }

  /** The summary a loop takes after its last fire is exactly what its events amount to. */
  lemma FinalSummaryIsExact(spec: Spec, readers: nat, run: seq<Action>, k: nat)
    requires var w := Run(spec, readers, run);
      k < |w.shots| && w.todo == [] && w.shots[k].begin == |w.log| - 1
    ensures var w := Run(spec, readers, run);
      w.shots[k].got == CountersOf(Tally(spec, w.events))
  {
    LastShotIsMemory(spec, readers, run, k);
    MemoryMatchesEvents(spec, readers, run);
    NothingPending(spec, Run(spec, readers, run));
  }

  // ---- counters only grow, and failures never pass fires, before 2^64 stores

  ghost predicate Below(a: Counters, b: Counters) {
    a.fires <= b.fires && a.failures <= b.failures && a.skips <= b.skips && a.paused <= b.paused
  }

  /** No counter has made more steps than there were stores. */
  ghost predicate Small(c: Counters, stores: nat) {
    c.fires <= stores && c.failures <= stores && c.skips <= stores && c.paused <= stores
  }

  /** Between the two stores of a failure, fires is ahead by one. */
  ghost predicate Ahead(c: Counters, todo: seq<Write>) {
    && c.failures + (if todo != [] && todo[0] == FailuresUp then 1 else 0) <= c.fires
    && (forall i :: 0 < i < |todo| && todo[i] == FailuresUp ==> todo[i - 1] == FiresUp)
  }

  ghost predicate Growing(log: seq<Counters>, todo: seq<Write>) {
    && |log| > 0
    && (forall i :: 0 <= i < |log| ==> Small(log[i], i) && log[i].failures <= log[i].fires)
    && (forall i, j :: 0 <= i <= j < |log| ==> Below(log[i], log[j]))
    && Ahead(log[|log| - 1], todo)
  }

  lemma ApplyGrows(c: Counters, todo: seq<Write>, stores: nat)
    requires Small(c, stores) && stores < WORD - 1 && todo != [] && Ahead(c, todo)
    ensures var d := Apply(c, todo[0]);
      Small(d, stores + 1) && Below(c, d) && Ahead(d, todo[1..])
  {
  }

  lemma WritesStayAhead(spec: Spec, c: Counters, e: Event)
    requires c.failures <= c.fires
    ensures Ahead(c, WritesOf(spec, c, e))
  {
  }

  lemma StoreStepGrows(log: seq<Counters>, todo: seq<Write>)
    requires Growing(log, todo) && todo != [] && |log| < WORD - 1
    ensures Growing(log + [Apply(log[|log| - 1], todo[0])], todo[1..])
  {
    var n := |log| - 1;
    assert Small(log[n], n);
    ApplyGrows(log[n], todo, n);
    StoreGrows(log, todo, Apply(log[n], todo[0]), todo[1..]);
  }

  lemma StepGrows(spec: Spec, w: World, a: Action)
    requires Growing(w.log, w.todo) && |Step(spec, w, a).log| < WORD
    ensures Growing(Step(spec, w, a).log, Step(spec, w, a).todo)
  {
    var c := w.log[|w.log| - 1];
    match a {
      case Store => if w.todo != [] { StoreStepGrows(w.log, w.todo); }
      case Begin(e) => if w.todo == [] { WritesStayAhead(spec, c, e); }
      case Read(_) =>
    }
  }

  lemma {:induction false} RunGrows(spec: Spec, readers: nat, run: seq<Action>)
    requires |Run(spec, readers, run).log| < WORD
    ensures Growing(Run(spec, readers, run).log, Run(spec, readers, run).todo)
  {
    if run != [] {
      RunGrows(spec, readers, run[..|run| - 1]);
      StepGrows(spec, Run(spec, readers, run[..|run| - 1]), run[|run| - 1]);
    }
  }

  lemma StoreGrows(log: seq<Counters>, todo: seq<Write>, d: Counters, rest: seq<Write>)
    requires Growing(log, todo) && Small(d, |log|) && Below(log[|log| - 1], d) && Ahead(d, rest)
    ensures Growing(log + [d], rest)
  {
  }

  /** A later snapshot dominates every earlier one in fires, failures, skips and paused, in every
      interleaving of stores and loads. */
  lemma LaterSnapshotsDominate(spec: Spec, readers: nat, run: seq<Action>, k: nat, l: nat)
    requires |Run(spec, readers, run).log| < WORD
    requires k < |Run(spec, readers, run).shots| && l < |Run(spec, readers, run).shots|
    requires var w := Run(spec, readers, run); w.shots[k].end <= w.shots[l].begin
    ensures var w := Run(spec, readers, run); Below(w.shots[k].got, w.shots[l].got)
  {
    var w := Run(spec, readers, run);
    RunIsTruthful(spec, readers, run);
    RunGrows(spec, readers, run);
    var a, b := w.shots[k], w.shots[l];
    forall f | 0 <= f < 4 ensures FieldBelow(a.got, b.got, f) { SeenBelow(w, a, b, f); }
    assert FieldBelow(a.got, b.got, 0) && FieldBelow(a.got, b.got, 1) && FieldBelow(a.got, b.got, 2) && FieldBelow(a.got, b.got, 3);
  }

  /** No snapshot is above the memory at any moment after it closed. */
  lemma SnapshotBelowMemory(spec: Spec, readers: nat, run: seq<Action>, k: nat, t: nat)
    requires |Run(spec, readers, run).log| < WORD && k < |Run(spec, readers, run).shots|
    requires Run(spec, readers, run).shots[k].end <= t < |Run(spec, readers, run).log|
    ensures Below(Run(spec, readers, run).shots[k].got, Run(spec, readers, run).log[t])
  {
    var w := Run(spec, readers, run);
    RunIsTruthful(spec, readers, run);
    RunGrows(spec, readers, run);
    var a, b := w.shots[k], Shot(t, seq(FIELDS, _ => t), t, w.log[t]);
    assert TrueShot(w.log, b);
    forall f | 0 <= f < 4 ensures FieldBelow(a.got, b.got, f) { SeenBelow(w, a, b, f); }
    assert FieldBelow(a.got, b.got, 0) && FieldBelow(a.got, b.got, 1) && FieldBelow(a.got, b.got, 2) && FieldBelow(a.got, b.got, 3);
  }

  lemma SeenBelow(w: World, a: Shot, b: Shot, f: nat)
    requires Growing(w.log, w.todo) && TrueShot(w.log, a) && TrueShot(w.log, b) && a.end <= b.begin && f < 4
    ensures FieldBelow(a.got, b.got, f)
  {
    assert SameField(w.log[a.at[f]], a.got, f) && SameField(w.log[b.at[f]], b.got, f);
    assert Below(w.log[a.at[f]], w.log[b.at[f]]);
  }

  ghost predicate FieldBelow(a: Counters, b: Counters, f: nat) {
    if f == 0 then a.fires <= b.fires
    else if f == 1 then a.failures <= b.failures
    else if f == 2 then a.skips <= b.skips
    else a.paused <= b.paused
  }

  /** A snapshot with no store inside its window is exact, as the summary a returning loop takes. */
  lemma QuietSnapshotIsExact(spec: Spec, readers: nat, run: seq<Action>, k: nat)
    requires k < |Run(spec, readers, run).shots|
    requires var s := Run(spec, readers, run).shots[k]; s.begin == s.end
    ensures var w := Run(spec, readers, run);
      w.shots[k].end < |w.log| && w.shots[k].got == w.log[w.shots[k].end]
  {
    var w := Run(spec, readers, run);
    RunIsTruthful(spec, readers, run);
    var s := w.shots[k];
    assert TrueShot(w.log, s);
    forall f | 0 <= f < FIELDS ensures SameField(w.log[s.end], s.got, f) { assert s.at[f] == s.end; }
    assert SameField(w.log[s.end], s.got, 0) && SameField(w.log[s.end], s.got, 1) && SameField(w.log[s.end], s.got, 2)
        && SameField(w.log[s.end], s.got, 3) && SameField(w.log[s.end], s.got, 4) && SameField(w.log[s.end], s.got, 5)
        && SameField(w.log[s.end], s.got, 6);
  }

  /** How many stores number `lo` to `hi - 1` count a failure. */
  function FailureStores(stores: seq<Write>, lo: nat, hi: nat): nat
    requires lo <= hi <= |stores|
  {
    if lo == hi then 0 else FailureStores(stores, lo, hi - 1) + (if stores[hi - 1].FailuresUp? then 1 else 0)
  }

  lemma {:induction false} FailuresBetween(log: seq<Counters>, stores: seq<Write>, lo: nat, hi: nat)
    requires Linked(log, stores) && lo <= hi < |log|
    requires log[lo].failures + (hi - lo) < WORD
    ensures log[hi].failures == log[lo].failures + FailureStores(stores, lo, hi)
    ensures FailureStores(stores, lo, hi) <= hi - lo
  {
    if lo < hi { FailuresBetween(log, stores, lo, hi - 1); }
  }

  lemma {:induction false} FewerInside(stores: seq<Write>, lo: nat, lo': nat, hi': nat, hi: nat)
    requires lo <= lo' <= hi' <= hi <= |stores|
    ensures FailureStores(stores, lo', hi') <= FailureStores(stores, lo, hi)
    decreases hi
  {
    if hi' < hi {
      FewerInside(stores, lo, lo', hi', hi - 1);
    } else if lo' < hi {
      FewerInside(stores, lo, lo', hi - 1, hi - 1);
    }
  }

  /** In memory failures never exceed fires; a snapshot shows more failures than fires if and only if,
      between its load of fires and its load of failures, more failures were counted than fires was
      ahead. It never shows more failures than there were fires when it loaded them, and a snapshot
      with no failure counted in its window is not torn. */
  lemma TornExactly(spec: Spec, readers: nat, run: seq<Action>, k: nat)
    requires |Run(spec, readers, run).log| < WORD && k < |Run(spec, readers, run).shots|
    ensures
      var w := Run(spec, readers, run);
      var s := w.shots[k];
      && |s.at| == FIELDS && s.begin <= s.at[0] <= s.at[1] <= s.end <= |w.stores| < |w.log|
      && (var first, second := w.log[s.at[0]], w.log[s.at[1]];
          && first.failures <= first.fires
          && (s.got.failures > s.got.fires <==>
                FailureStores(w.stores, s.at[0], s.at[1]) > first.fires - first.failures)
          && s.got.failures <= second.fires)
      && (FailureStores(w.stores, s.begin, s.end) == 0 ==> s.got.failures <= s.got.fires)
  {
    var w := Run(spec, readers, run);
    RunIsTruthful(spec, readers, run);
    RunGrows(spec, readers, run);
    var s := w.shots[k];
    assert TrueShot(w.log, s);
    var i, j := s.at[0], s.at[1];
    assert SameField(w.log[i], s.got, 0) && SameField(w.log[j], s.got, 1);
    assert Small(w.log[i], i);
    FailuresBetween(w.log, w.stores, i, j);
    FewerInside(w.stores, s.begin, i, j, s.end);
  }

  lemma RunSnoc(spec: Spec, readers: nat, run: seq<Action>, a: Action)
    ensures Run(spec, readers, run + [a]) == Step(spec, Run(spec, readers, run), a)
  {
    assert (run + [a])[..|run + [a]| - 1] == run;
  }

  /** A torn snapshot: fires is loaded before a failing fire stores, failures after it. */
  lemma SnapshotsCanTear(spec: Spec, message: string) returns (run: seq<Action>)
    ensures var w := Run(spec, 1, run);
      |w.shots| == 1 && w.shots[0].got.failures == 1 && w.shots[0].got.fires == 0
  {
    var fail := Begin(Fail(message, false, false));
    var a1 := [] + [Read(0)];
    var a2 := a1 + [Read(0)];
    var a3 := a2 + [fail];
    var a4 := a3 + [Store];
    var a5 := a4 + [Store];
    var a6 := a5 + [Read(0)];
    RunSnoc(spec, 1, [], Read(0));
    RunSnoc(spec, 1, a1, Read(0));
    RunSnoc(spec, 1, a2, fail);
    RunSnoc(spec, 1, a3, Store);
    RunSnoc(spec, 1, a4, Store);
    RunSnoc(spec, 1, a5, Read(0));
    TornWorlds(spec, message);
    run := FinishReading(spec, a6, 2);
  }

  /** The reader loads fires, a failing fire makes its first two stores, the reader loads failures. */
  lemma TornWorlds(spec: Spec, message: string)
    ensures
      var w2 := Step(spec, Step(spec, Opening(1), Read(0)), Read(0));
      var w5 := Step(spec, Step(spec, Step(spec, w2, Begin(Fail(message, false, false))), Store), Store);
      var w6 := Step(spec, w5, Read(0));
      && |w6.readers| == 1 && w6.readers[0].Reading? && |w6.readers[0].at| == 2 && w6.shots == []
      && w6.readers[0].got.failures == 1 && w6.readers[0].got.fires == 0
  {
  }

  /** A reader past the first two fields finishes without touching them. */
  lemma {:induction false} FinishReading(spec: Spec, run: seq<Action>, next: nat) returns (run': seq<Action>)
    requires 2 <= next <= FIELDS
    requires var w := Run(spec, 1, run);
      |w.readers| == 1 && w.readers[0].Reading? && |w.readers[0].at| == next && w.shots == []
    ensures var w, u := Run(spec, 1, run), Run(spec, 1, run');
      && |u.shots| == 1
      && u.shots[0].got.fires == w.readers[0].got.fires && u.shots[0].got.failures == w.readers[0].got.failures
    decreases FIELDS - next
  {
    RunSnoc(spec, 1, run, Read(0));
    if next == FIELDS {
      run' := run + [Read(0)];
    } else {
      run' := FinishReading(spec, run + [Read(0)], next + 1);
    }
  }
}
