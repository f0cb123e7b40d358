/** What every run of the lease protocol keeps: who may be elected when, and whose fires may overlap. */
module LeaseSafety {
  import opened Lease

  // ---- exclusion

  /** A runner that has asked for no time at all is never elected. */
  ghost predicate Sane(runner: Runner) {
    runner.ttl == 0 ==> !runner.held && (runner.stage.Idle? || runner.stage.Acquiring?)
  }

  /** Election `e` cannot be contested before `t` ms have passed: either they have, or its holder's
      key outlives them. */
  ghost predicate Covered(server: Server, e: Election, t: nat) {
    && e.time <= server.now
    && (server.now >= e.time + t
        || (server.key.Some? && server.key.value.holder == e.holder && server.key.value.expiry >= e.time + t))
  }

  ghost predicate Apart(e: Election, f: Election, t: nat) {
    e.time <= f.time && (e.holder != f.holder ==> e.time + t <= f.time)
  }

  /** No runner that asks for time at all asks for less than its holder's share `t`. */
  ghost predicate AtLeast(runners: seq<Runner>, t: string -> nat) {
    forall r :: 0 <= r < |runners| ==> runners[r].ttl == 0 || runners[r].ttl >= t(runners[r].holder)
  }

  /** The lease invariant. */
  ghost predicate Exclusive(w: World, t: string -> nat) {
    && AtLeast(w.runners, t)
    && (forall r :: 0 <= r < |w.runners| ==> Sane(w.runners[r]))
    && (forall i :: 0 <= i < |w.elections| ==> Covered(w.server, w.elections[i], t(w.elections[i].holder)))
    && (forall i, j :: 0 <= i < j < |w.elections| ==>
          Apart(w.elections[i], w.elections[j], t(w.elections[i].holder)))
  }

  /** A renewal moves only the expiry of the caller's own key: the caller's elections stay covered,
      and every other holder's time had run out already. */
  lemma RenewKeepsExclusive(w: World, r: nat, reply: Reply, t: string -> nat)
    requires Exclusive(w, t) && r < |w.runners| && w.runners[r].stage.Renewing?
    ensures Exclusive(RenewStep(w, r, reply), t)
  {
  }

  /** An acquisition finds no live key, so the time of every past election has run out. */
  lemma AcquireKeepsExclusive(w: World, r: nat, reply: Reply, t: string -> nat)
    requires Exclusive(w, t) && r < |w.runners| && w.runners[r].stage.Acquiring?
    ensures Exclusive(AcquireStep(w, r, reply), t)
  {
  }

  lemma StepKeepsExclusive(w: World, a: Action, t: string -> nat)
    requires Exclusive(w, t)
    ensures Exclusive(Step(w, a), t)
  {
    match a {
      case Tick(ms) =>
        forall i | 0 <= i < |w.elections|
          ensures Covered(Step(w, a).server, w.elections[i], t(w.elections[i].holder))
        {
          assert Covered(w.server, w.elections[i], t(w.elections[i].holder));
        }
      case Renew(r, reply) =>
        if r < |w.runners| && w.runners[r].stage.Renewing? { RenewKeepsExclusive(w, r, reply, t); }
      case Acquire(r, reply) =>
        if r < |w.runners| && w.runners[r].stage.Acquiring? { AcquireKeepsExclusive(w, r, reply, t); }
      case _ =>
        if a.runner < |w.runners| { assert Sane(w.runners[a.runner]); }
    }
  }

  lemma {:induction false} RunKeepsExclusive(w: World, run: seq<Action>, t: string -> nat)
    requires Exclusive(w, t)
    ensures Exclusive(Run(w, run), t)
  {
    if run != [] {
      RunKeepsExclusive(w, run[..|run| - 1], t);
      StepKeepsExclusive(Run(w, run[..|run| - 1]), run[|run| - 1], t);
    }
  }

  /** Lease exclusion over whole runs, holder by holder: if no runner of holder h asks for less than
      t(h) ms, then after an election of h no other holder is elected for t(h) ms. */
  lemma Exclusion(w: World, run: seq<Action>, t: string -> nat, i: nat, j: nat)
    requires Initial(w) && AtLeast(w.runners, t)
    requires i < j < |Run(w, run).elections|
    ensures var es := Run(w, run).elections;
      es[i].time <= es[j].time && (es[i].holder != es[j].holder ==> es[i].time + t(es[i].holder) <= es[j].time)
  {
    RunKeepsExclusive(w, run, t);
    assert Apart(Run(w, run).elections[i], Run(w, run).elections[j], t(Run(w, run).elections[i].holder));
  }

  /** The usual case: one TTL for all, elections of different holders are a TTL apart. */
  lemma CommonTtlExclusion(w: World, run: seq<Action>, ttl: nat, i: nat, j: nat)
    requires Initial(w) && forall r :: 0 <= r < |w.runners| ==> w.runners[r].ttl == ttl
    requires i < j < |Run(w, run).elections|
    ensures var es := Run(w, run).elections;
      es[i].holder != es[j].holder ==> es[i].time + ttl <= es[j].time
  {
    Exclusion(w, run, _ => ttl, i, j);
  }

  // ---- exactly when every runner gets its own TTL

  /** Registrations never change, and every election was of a registered runner with time to ask for. */
  ghost predicate Registered(w: World, runners: seq<Runner>) {
    && |w.runners| == |runners|
    && (forall r :: 0 <= r < |runners| ==> w.runners[r].holder == runners[r].holder && w.runners[r].ttl == runners[r].ttl)
    && (forall i :: 0 <= i < |w.elections| ==> RegisteredElection(w.elections[i], runners))
  }

  ghost predicate RegisteredElection(e: Election, runners: seq<Runner>) {
    e.runner < |runners| && e.holder == runners[e.runner].holder && e.ttl == runners[e.runner].ttl > 0
  }

  lemma StepKeepsRegistered(w: World, a: Action, runners: seq<Runner>)
    requires Registered(w, runners)
    requires forall r :: 0 <= r < |w.runners| ==> Sane(w.runners[r])
    ensures Registered(Step(w, a), runners)
  {
  }

  lemma {:induction false} RunKeepsRegistered(w: World, run: seq<Action>)
    requires Initial(w)
    ensures Registered(Run(w, run), w.runners)
  {
    if run != [] {
      RunKeepsRegistered(w, run[..|run| - 1]);
      RunKeepsExclusive(w, run[..|run| - 1], _ => 0);
      StepKeepsRegistered(Run(w, run[..|run| - 1]), run[|run| - 1], w.runners);
    }
  }

  /** Every election keeps other holders out for the elected runner's own TTL. */
  ghost predicate OwnTtlHolds(es: seq<Election>) {
    forall i, j :: 0 <= i < j < |es| && es[i].holder != es[j].holder ==> es[i].time + es[i].ttl <= es[j].time
  }

  /** Runners that share a holder ask for the same time, where another holder competes with them. */
  ghost predicate SiblingsAgree(runners: seq<Runner>) {
    forall a, b, c :: 0 <= a < |runners| && 0 <= b < |runners| && 0 <= c < |runners| ==>
      !Undercuts(runners[a], runners[b], runners[c])
  }

  /** `b` renews the lease of `a` to a shorter time, and `c` can then take it. */
  ghost predicate Undercuts(a: Runner, b: Runner, c: Runner) {
    a.holder == b.holder && c.holder != a.holder && 0 < b.ttl < a.ttl && c.ttl > 0
  }

  lemma AgreementExcludes(w: World, run: seq<Action>)
    requires Initial(w) && SiblingsAgree(w.runners)
    ensures OwnTtlHolds(Run(w, run).elections)
  {
    var es := Run(w, run).elections;
    RunKeepsRegistered(w, run);
    forall i, j | 0 <= i < j < |es| && es[i].holder != es[j].holder ensures es[i].time + es[i].ttl <= es[j].time {
      assert RegisteredElection(es[i], w.runners) && RegisteredElection(es[j], w.runners);
      var t: string -> nat := h => if h == es[i].holder then es[i].ttl else 0;
      forall b | 0 <= b < |w.runners|
        ensures w.runners[b].ttl == 0 || w.runners[b].ttl >= t(w.runners[b].holder)
      {
        assert !Undercuts(w.runners[es[i].runner], w.runners[b], w.runners[es[j].runner]);
      }
      Exclusion(w, run, t, i, j);
    }
  }

  /** Runner `r` attempts, acquires and is answered. */
  lemma TakeOver(v: World, r: nat)
    requires r < |v.runners| && !v.server.Live()
    requires v.runners[r].stage.Idle? && !v.runners[r].held && v.runners[r].ttl > 0
    ensures Step(Step(v, Begin(r)), Acquire(r, Answered))
         == Elect(v.(server := SetNxPx(v.server, v.runners[r].holder, v.runners[r].ttl).0), r, v.server.epochs, true)
  {
  }

  /** Runner `r` runs its closure. */
  lemma FireOnce(v: World, r: nat)
    requires r < |v.runners| && v.runners[r].stage.Elected?
    ensures var u := Step(Step(v, Start(r)), Finish(r));
      && u.server == v.server && u.elections == v.elections
      && u.runners == v.runners[r := v.runners[r].(stage := Idle)]
      && u.executions == v.executions + [Execution(v.runners[r].stage.election, v.server.now, v.server.now)]
  {
  }

  /** Runner `r`, elected before, attempts, renews and is answered. */
  lemma RenewOnce(v: World, r: nat)
    requires r < |v.runners| && v.runners[r].stage.Idle? && v.runners[r].held && v.runners[r].ttl > 0
    requires v.server.LiveFor(v.runners[r].holder)
    ensures var u := Step(Step(v, Begin(r)), Renew(r, Answered));
      && u.server == CompareAndExpire(v.server, v.runners[r].holder, v.runners[r].ttl).0
      && |u.elections| == |v.elections| + 1 && u.elections[..|v.elections|] == v.elections
      && |u.runners| == |v.runners|
      && (forall q :: 0 <= q < |v.runners| && q != r ==> u.runners[q] == v.runners[q])
  {
  }

  /** The shortest betrayal: `b` is elected and lapses, `a` is elected, `b` renews the common key to
      its own shorter time, and `c` takes the lease while `a` still counts on it. */
  lemma UndercutRun(w: World, a: nat, b: nat, c: nat) returns (run: seq<Action>)
    requires Initial(w) && a < |w.runners| && b < |w.runners| && c < |w.runners|
    requires Undercuts(w.runners[a], w.runners[b], w.runners[c])
    ensures !OwnTtlHolds(Run(w, run).elections)
  {
    var lapse := Tick(if w.server.key.Some? then w.server.key.value.expiry else 0);
    var shorter := Tick(w.runners[b].ttl);
    var run0 := [] + [lapse];
    RunSnoc(w, [], lapse);
    var run1 := run0 + [Begin(b)];
    RunSnoc(w, run0, Begin(b));
    var run2 := run1 + [Acquire(b, Answered)];
    RunSnoc(w, run1, Acquire(b, Answered));
    var run3 := run2 + [Start(b)];
    RunSnoc(w, run2, Start(b));
    var run4 := run3 + [Finish(b)];
    RunSnoc(w, run3, Finish(b));
    var run5 := run4 + [shorter];
    RunSnoc(w, run4, shorter);
    var run6 := run5 + [Begin(a)];
    RunSnoc(w, run5, Begin(a));
    var run7 := run6 + [Acquire(a, Answered)];
    RunSnoc(w, run6, Acquire(a, Answered));
    var run8 := run7 + [Begin(b)];
    RunSnoc(w, run7, Begin(b));
    var run9 := run8 + [Renew(b, Answered)];
    RunSnoc(w, run8, Renew(b, Answered));
    var run10 := run9 + [shorter];
    RunSnoc(w, run9, shorter);
    var run11 := run10 + [Begin(c)];
    RunSnoc(w, run10, Begin(c));
    run := run11 + [Acquire(c, Answered)];
    RunSnoc(w, run11, Acquire(c, Answered));
    UndercutWorlds(w, Run(w, run0), Run(w, run4), Run(w, run5), Run(w, run7), Run(w, run9), Run(w, run10), Run(w, run), a, b, c);
  }

  lemma UndercutWorlds(w: World, w1: World, w3: World, w4: World, w5: World, w6: World, w7: World, w8: World, a: nat, b: nat, c: nat)
    requires Initial(w) && a < |w.runners| && b < |w.runners| && c < |w.runners|
    requires Undercuts(w.runners[a], w.runners[b], w.runners[c])
    requires w1 == Step(w, Tick(if w.server.key.Some? then w.server.key.value.expiry else 0))
    requires w3 == Step(Step(Step(Step(w1, Begin(b)), Acquire(b, Answered)), Start(b)), Finish(b))
    requires w4 == Step(w3, Tick(w.runners[b].ttl))
    requires w5 == Step(Step(w4, Begin(a)), Acquire(a, Answered))
    requires w6 == Step(Step(w5, Begin(b)), Renew(b, Answered))
    requires w7 == Step(w6, Tick(w.runners[b].ttl))
    requires w8 == Step(Step(w7, Begin(c)), Acquire(c, Answered))
    ensures !OwnTtlHolds(w8.elections)
  {
    TakeOver(w1, b);
    FireOnce(Step(Step(w1, Begin(b)), Acquire(b, Answered)), b);
    TakeOver(w4, a);
    RenewOnce(w5, b);
    TakeOver(w7, c);
    var es := w8.elections;
    assert es[1] == w5.elections[1] && es[1].runner == a;
    assert es[1].holder != es[3].holder && es[1].time + es[1].ttl > es[3].time;
  }

  /** Every runner's own TTL keeps other holders out, in every run, if and only if runners that share
      a holder agree on it. TTLs are captured at each registration, so they need not. */
  lemma OwnTtlExcludesIffSiblingsAgree(w: World)
    requires Initial(w)
    ensures (forall run: seq<Action> :: OwnTtlHolds(Run(w, run).elections)) <==> SiblingsAgree(w.runners)
  {
    if SiblingsAgree(w.runners) {
      forall run: seq<Action> ensures OwnTtlHolds(Run(w, run).elections) { AgreementExcludes(w, run); }
    } else {
      var a, b, c :| 0 <= a < |w.runners| && 0 <= b < |w.runners| && 0 <= c < |w.runners|
                     && Undercuts(w.runners[a], w.runners[b], w.runners[c]);
      var run := UndercutRun(w, a, b, c);
    }
  }

  // ---- no overlapping fires

  /** Elections and executions refer to each other correctly and in time order. */
  ghost predicate Timely(w: World) {
    && (forall i :: 0 <= i < |w.elections| ==> w.elections[i].time <= w.server.now)
    && (forall k :: 0 <= k < |w.executions| ==> TimelyExecution(w, w.executions[k]))
    && (forall r :: 0 <= r < |w.runners| ==> TimelyStage(w, r))
  }

  ghost predicate TimelyExecution(w: World, x: Execution) {
    x.election < |w.elections| && w.elections[x.election].time <= x.start <= x.end <= w.server.now
  }

  ghost predicate TimelyStage(w: World, r: nat)
    requires r < |w.runners|
  {
    match w.runners[r].stage
    case Elected(e) => e < |w.elections| && w.elections[e].runner == r
    case Running(e, start) =>
      e < |w.elections| && w.elections[e].runner == r && w.elections[e].time <= start <= w.server.now
    case _ => true
  }

  /** Elections are only appended and time only grows. */
  ghost predicate Extends(w: World, u: World) {
    && w.server.now <= u.server.now
    && w.elections <= u.elections
    && |u.runners| == |w.runners|
  }

  lemma StepExtends(w: World, a: Action)
    ensures Extends(w, Step(w, a))
  {
  }

  lemma StepKeepsStages(w: World, a: Action, r: nat)
    requires Timely(w) && r < |w.runners|
    ensures |Step(w, a).runners| == |w.runners| && TimelyStage(Step(w, a), r)
  {
    StepExtends(w, a);
    assert TimelyStage(w, r);
  }

  lemma StepKeepsTimely(w: World, a: Action)
    requires Timely(w)
    ensures Timely(Step(w, a))
  {
    var u := Step(w, a);
    StepExtends(w, a);
    forall k | 0 <= k < |u.executions| ensures TimelyExecution(u, u.executions[k]) {
      if k < |w.executions| {
        assert TimelyExecution(w, w.executions[k]);
      } else {
        assert TimelyStage(w, a.runner);
      }
    }
    forall r | 0 <= r < |u.runners| ensures TimelyStage(u, r) { StepKeepsStages(w, a, r); }
  }

  lemma {:induction false} RunKeepsTimely(w: World, run: seq<Action>)
    requires Initial(w)
    ensures Timely(Run(w, run))
  {
    if run != [] {
      RunKeepsTimely(w, run[..|run| - 1]);
      StepKeepsTimely(Run(w, run[..|run| - 1]), run[|run| - 1]);
    }
  }

  /** No overlapping leader fires, over whole runs: executions under different holders never overlap
      if each one ends within its holder's share `t` of its election. */
  lemma NoOverlap(w: World, run: seq<Action>, t: string -> nat, k: nat, l: nat)
    requires Initial(w) && AtLeast(w.runners, t)
    requires k < |Run(w, run).executions| && l < |Run(w, run).executions|
    requires forall x :: x in Run(w, run).executions && x.election < |Run(w, run).elections| ==>
      var e := Run(w, run).elections[x.election]; x.end <= e.time + t(e.holder)
    ensures
      var u := Run(w, run);
      var x, y := u.executions[k], u.executions[l];
      && x.election < |u.elections| && y.election < |u.elections|
      && (u.elections[x.election].holder != u.elections[y.election].holder ==> x.end <= y.start || y.end <= x.start)
  {
    var u := Run(w, run);
    RunKeepsTimely(w, run);
    var x, y := u.executions[k], u.executions[l];
    assert TimelyExecution(u, x) && TimelyExecution(u, y);
    assert x in u.executions && y in u.executions;
    if x.election < y.election { Exclusion(w, run, t, x.election, y.election); }
    if y.election < x.election { Exclusion(w, run, t, y.election, x.election); }
  }

  // ---- exactly which bound on executions keeps them apart

  /** Every execution ends within its holder's bound `b` of its election. */
  ghost predicate Prompt(u: World, b: string -> nat) {
    forall k :: 0 <= k < |u.executions| ==> PromptExecution(u, u.executions[k], b)
  }

  ghost predicate PromptExecution(u: World, x: Execution, b: string -> nat) {
    x.election < |u.elections| && x.end <= u.elections[x.election].time + b(u.elections[x.election].holder)
  }

  /** Executions under different holders do not overlap. */
  ghost predicate Disjoint(u: World) {
    forall k, l :: 0 <= k < |u.executions| && 0 <= l < |u.executions| ==> Clear(u, u.executions[k], u.executions[l])
  }

  ghost predicate Clear(u: World, x: Execution, y: Execution) {
    && x.election < |u.elections| && y.election < |u.elections|
    && (u.elections[x.election].holder != u.elections[y.election].holder ==> x.end <= y.start || y.end <= x.start)
  }

  /** A runner that asks for less time than its holder's executions may take, and one of another holder
      that can step in. */
  ghost predicate Outruns(a: Runner, c: Runner, b: string -> nat) {
    a.holder != c.holder && c.ttl > 0 && 0 < a.ttl < b(a.holder)
  }

  /** Where holders compete, no holder's bound is above the shortest time its runners ask for. */
  ghost predicate BoundsFit(runners: seq<Runner>, b: string -> nat) {
    forall a, c :: 0 <= a < |runners| && 0 <= c < |runners| ==> !Outruns(runners[a], runners[c], b)
  }

  lemma FittingBoundsClear(w: World, run: seq<Action>, b: string -> nat, k: nat, l: nat)
    requires Initial(w) && BoundsFit(w.runners, b) && Prompt(Run(w, run), b)
    requires k < |Run(w, run).executions| && l < |Run(w, run).executions|
    ensures Clear(Run(w, run), Run(w, run).executions[k], Run(w, run).executions[l])
  {
    var u := Run(w, run);
    var x, y := u.executions[k], u.executions[l];
    RunKeepsTimely(w, run);
    assert TimelyExecution(u, x) && TimelyExecution(u, y);
    assert PromptExecution(u, x, b) && PromptExecution(u, y, b);
    var e, f := u.elections[x.election], u.elections[y.election];
    if e.holder != f.holder {
      RunKeepsRegistered(w, run);
      assert RegisteredElection(e, w.runners) && RegisteredElection(f, w.runners);
      var t: string -> nat := h => if h == e.holder || h == f.holder then b(h) else 0;
      forall r | 0 <= r < |w.runners| ensures w.runners[r].ttl == 0 || w.runners[r].ttl >= t(w.runners[r].holder) {
        assert !Outruns(w.runners[r], w.runners[e.runner], b) && !Outruns(w.runners[r], w.runners[f.runner], b);
      }
      if x.election < y.election {
        Exclusion(w, run, t, x.election, y.election);
      } else {
        Exclusion(w, run, t, y.election, x.election);
      }
    }
  }

  /** `a` is elected and starts, its time runs out while it is still within its bound, `c` is elected and
      fires, and only then `a` finishes. */
  lemma OutrunRun(w: World, a: nat, c: nat, b: string -> nat) returns (run: seq<Action>)
    requires Initial(w) && a < |w.runners| && c < |w.runners| && Outruns(w.runners[a], w.runners[c], b)
    ensures Prompt(Run(w, run), b) && !Disjoint(Run(w, run))
  {
    var lapse := Tick(if w.server.key.Some? then w.server.key.value.expiry else 0);
    var run0 := [] + [lapse];
    RunSnoc(w, [], lapse);
    var run1 := run0 + [Begin(a)];
    RunSnoc(w, run0, Begin(a));
    var run2 := run1 + [Acquire(a, Answered)];
    RunSnoc(w, run1, Acquire(a, Answered));
    var run3 := run2 + [Start(a)];
    RunSnoc(w, run2, Start(a));
    var run4 := run3 + [Tick(w.runners[a].ttl)];
    RunSnoc(w, run3, Tick(w.runners[a].ttl));
    var run5 := run4 + [Begin(c)];
    RunSnoc(w, run4, Begin(c));
    var run6 := run5 + [Acquire(c, Answered)];
    RunSnoc(w, run5, Acquire(c, Answered));
    var run7 := run6 + [Start(c)];
    RunSnoc(w, run6, Start(c));
    var run8 := run7 + [Finish(c)];
    RunSnoc(w, run7, Finish(c));
    var run9 := run8 + [Tick(1)];
    RunSnoc(w, run8, Tick(1));
    run := run9 + [Finish(a)];
    RunSnoc(w, run9, Finish(a));
    OutrunWorlds(w, Run(w, run0), Run(w, run3), Run(w, run4), Run(w, run6), Run(w, run8), Run(w, run), a, c, b);
  }

  lemma OutrunWorlds(w: World, w1: World, w2: World, w3: World, w4: World, w5: World, w6: World, a: nat, c: nat, b: string -> nat)
    requires Initial(w) && a < |w.runners| && c < |w.runners| && Outruns(w.runners[a], w.runners[c], b)
    requires w1 == Step(w, Tick(if w.server.key.Some? then w.server.key.value.expiry else 0))
    requires w2 == Step(Step(Step(w1, Begin(a)), Acquire(a, Answered)), Start(a))
    requires w3 == Step(w2, Tick(w.runners[a].ttl))
    requires w4 == Step(Step(w3, Begin(c)), Acquire(c, Answered))
    requires w5 == Step(Step(w4, Start(c)), Finish(c))
    requires w6 == Step(Step(w5, Tick(1)), Finish(a))
    ensures Prompt(w6, b) && !Disjoint(w6)
  {
    TakeOver(w1, a);
    TakeOver(w3, c);
    OutrunPeak(w4, w5, w6, a, c, w1.server.now, w.runners[a].ttl, b);
  }

  /** From the moment `c` is elected while `a` runs. */
  lemma OutrunPeak(w4: World, w5: World, w6: World, a: nat, c: nat, t: nat, ttl: nat, b: string -> nat)
    requires a < |w4.runners| && c < |w4.runners| && a != c && 0 < ttl < b(w4.runners[a].holder)
    requires w4.server.now == t + ttl && w4.executions == [] && |w4.elections| == 2
    requires w4.runners[a].stage == Running(0, t) && w4.runners[c].stage == Elected(1)
    requires w4.elections[0].time == t && w4.elections[0].holder == w4.runners[a].holder
    requires w4.elections[1].time == t + ttl && w4.elections[1].holder != w4.runners[a].holder
    requires w5 == Step(Step(w4, Start(c)), Finish(c))
    requires w6 == Step(Step(w5, Tick(1)), Finish(a))
    ensures Prompt(w6, b) && !Disjoint(w6)
  {
    FireOnce(w4, c);
    assert w6.executions == [Execution(1, t + ttl, t + ttl), Execution(0, t, t + ttl + 1)];
    assert !Clear(w6, w6.executions[0], w6.executions[1]);
  }

  /** Non-overlap, exactly: executions that end within their holder's bound never overlap another
      holder's, in any run, if and only if, where holders compete, no bound is above the shortest time the
      holder's runners ask for. */
  lemma NoOverlapIffBoundsFit(w: World, b: string -> nat)
    requires Initial(w)
    ensures (forall run :: Prompt(Run(w, run), b) ==> Disjoint(Run(w, run))) <==> BoundsFit(w.runners, b)
  {
    if BoundsFit(w.runners, b) {
      forall run | Prompt(Run(w, run), b) ensures Disjoint(Run(w, run)) {
        forall k, l | 0 <= k < |Run(w, run).executions| && 0 <= l < |Run(w, run).executions|
          ensures Clear(Run(w, run), Run(w, run).executions[k], Run(w, run).executions[l])
        {
          FittingBoundsClear(w, run, b, k, l);
        }
      }
    } else {
      var a, c :| 0 <= a < |w.runners| && 0 <= c < |w.runners| && Outruns(w.runners[a], w.runners[c], b);
      var run := OutrunRun(w, a, c, b);
      assert Prompt(Run(w, run), b) && !Disjoint(Run(w, run));
    }
  }
}
