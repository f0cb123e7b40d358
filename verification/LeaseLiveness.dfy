/** Key epochs of the lease protocol, and why a leader that lapsed is never stuck. */
module LeaseLiveness {
  import opened Lease

  // ---- epochs: each lifetime of the key, from its creation to its end

  /** What the election history says about epochs. Epochs are numbered by creation. */
  ghost predicate Epochal(w: World) {
    && (w.server.key.Some? ==> w.server.key.value.epoch < w.server.epochs)
    && (forall i :: 0 <= i < |w.elections| ==> KnownEpoch(w, w.elections[i]))
    && (forall i, j :: 0 <= i < j < |w.elections| ==> InOrder(w.elections[i], w.elections[j]))
    && (forall i :: 0 <= i < |w.elections| ==> RootedIn(w.elections, i))
    && (forall r :: 0 <= r < |w.runners| ==> HeldRooted(w, r))
  }

  /** An election's epoch exists, is not newer than the key's, and if it is the key's, so is the holder. */
  ghost predicate KnownEpoch(w: World, e: Election) {
    && e.epoch < w.server.epochs
    && (w.server.key.Some? ==> e.epoch <= w.server.key.value.epoch)
    && (w.server.key.Some? && e.epoch == w.server.key.value.epoch ==> e.holder == w.server.key.value.holder)
  }

  /** A later election is in the same or a later epoch; if it acquired, in a later one; one epoch has
      one holder. */
  ghost predicate InOrder(e: Election, f: Election) {
    e.epoch <= f.epoch && (f.acquired ==> e.epoch < f.epoch) && (e.epoch == f.epoch ==> e.holder == f.holder)
  }

  /** The runner elected at `i` first got there by acquiring. */
  ghost predicate RootedIn(es: seq<Election>, i: nat)
    requires i < |es|
  {
    exists j :: 0 <= j <= i && es[j].runner == es[i].runner && es[j].acquired
  }

  /** The leader flag of a runner is up exactly if it was elected, and then it acquired once. */
  ghost predicate HeldRooted(w: World, r: nat)
    requires r < |w.runners|
  {
    && (w.runners[r].held <==> exists i :: 0 <= i < |w.elections| && w.elections[i].runner == r)
    && (w.runners[r].held ==> exists j :: 0 <= j < |w.elections| && w.elections[j].runner == r && w.elections[j].acquired)
    && (w.runners[r].stage.Renewing? ==> w.runners[r].held)
  }

  /** Appending the election of runner `r` in `epoch`. */
  lemma ElectKeepsEpochal(w: World, r: nat, epoch: nat, acquired: bool)
    requires Epochal(w) && r < |w.runners| && epoch < w.server.epochs
    requires acquired || w.runners[r].held
    requires forall i :: 0 <= i < |w.elections| ==>
      InOrder(w.elections[i], Election(r, w.runners[r].holder, w.runners[r].ttl, w.server.now, epoch, acquired))
    requires w.server.key.Some? ==> w.server.key.value.epoch == epoch && w.server.key.value.holder == w.runners[r].holder
    ensures Epochal(Elect(w, r, epoch, acquired))
  {
    var u := Elect(w, r, epoch, acquired);
    var n := |w.elections|;
    assert HeldRooted(w, r);
    assert u.elections[n].runner == r;
    forall i | 0 <= i < |u.elections| ensures RootedIn(u.elections, i) {
      if i < n {
        assert RootedIn(w.elections, i);
        var j :| 0 <= j <= i && w.elections[j].runner == w.elections[i].runner && w.elections[j].acquired;
        assert u.elections[j] == w.elections[j];
      } else if acquired {
        assert u.elections[n].acquired;
      } else {
        var j :| 0 <= j < n && w.elections[j].runner == r && w.elections[j].acquired;
        assert u.elections[j] == w.elections[j];
      }
    }
    forall q | 0 <= q < |u.runners| ensures HeldRooted(u, q) { HeldRootedGrows(w, u, q); }
    forall i | 0 <= i < |u.elections| ensures KnownEpoch(u, u.elections[i]) {
      if i < n { assert KnownEpoch(w, w.elections[i]); }
    }
  }

  lemma HeldRootedGrows(w: World, u: World, q: nat)
    requires |u.runners| == |w.runners| && q < |w.runners| && HeldRooted(w, q)
    requires |u.elections| == |w.elections| + 1 && u.elections[..|w.elections|] == w.elections
    requires var e := u.elections[|w.elections|];
      && RootedIn(u.elections, |w.elections|)
      && (if e.runner == q then u.runners[q].held && !u.runners[q].stage.Renewing? else u.runners[q] == w.runners[q])
    ensures HeldRooted(u, q)
  {
  }

  lemma StagedKeepsEpochal(w: World, r: nat, stage: Stage)
    requires Epochal(w) && r < |w.runners|
    requires stage.Renewing? ==> w.runners[r].held
    ensures Epochal(Staged(w, r, stage))
  {
    var u := Staged(w, r, stage);
    forall i | 0 <= i < |u.elections| ensures KnownEpoch(u, u.elections[i]) { assert KnownEpoch(w, w.elections[i]); }
    forall q | 0 <= q < |u.runners| ensures HeldRooted(u, q) { assert HeldRooted(w, q); }
  }

  /** A command's effect on the key alone. */
  lemma ServerKeepsEpochal(w: World, server: Server, r: nat)
    requires Epochal(w) && r < |w.runners|
    requires var runner := w.runners[r];
      exists reply ::
        || server == AcquireReply(w.server, runner.holder, runner.ttl, reply).0
        || server == RenewReply(w.server, runner.holder, runner.ttl, reply).0
    ensures Epochal(w.(server := server))
  {
    var u := w.(server := server);
    forall i | 0 <= i < |u.elections| ensures KnownEpoch(u, u.elections[i]) { assert KnownEpoch(w, w.elections[i]); }
    forall q | 0 <= q < |u.runners| ensures HeldRooted(u, q) { assert HeldRooted(w, q); }
  }

  lemma RenewKeepsEpochal(w: World, r: nat, reply: Reply)
    requires Epochal(w) && r < |w.runners| && w.runners[r].stage.Renewing?
    ensures Epochal(RenewStep(w, r, reply))
  {
    var (server, done) := RenewReply(w.server, w.runners[r].holder, w.runners[r].ttl, reply);
    var v := w.(server := server);
    ServerKeepsEpochal(w, server, r);
    if done {
      assert HeldRooted(w, r);
      forall i | 0 <= i < |w.elections| ensures KnownEpoch(w, w.elections[i]) {}
      ElectKeepsEpochal(v, r, w.server.key.value.epoch, false);
    } else {
      StagedKeepsEpochal(v, r, Acquiring);
    }
  }

  lemma AcquireKeepsEpochal(w: World, r: nat, reply: Reply)
    requires Epochal(w) && r < |w.runners| && w.runners[r].stage.Acquiring?
    ensures Epochal(AcquireStep(w, r, reply))
  {
    var (server, done) := AcquireReply(w.server, w.runners[r].holder, w.runners[r].ttl, reply);
    var v := w.(server := server);
    ServerKeepsEpochal(w, server, r);
    if done {
      forall i | 0 <= i < |w.elections| ensures KnownEpoch(w, w.elections[i]) {}
      ElectKeepsEpochal(v, r, w.server.epochs, true);
    } else {
      StagedKeepsEpochal(v, r, Idle);
    }
  }

  lemma StepKeepsEpochal(w: World, a: Action)
    requires Epochal(w)
    ensures Epochal(Step(w, a))
  {
    if a.Tick? {
      var u := Step(w, a);
      forall i | 0 <= i < |u.elections| ensures KnownEpoch(u, u.elections[i]) { assert KnownEpoch(w, w.elections[i]); }
      forall q | 0 <= q < |u.runners| ensures HeldRooted(u, q) { assert HeldRooted(w, q); }
    } else if a.runner < |w.runners| {
      var r := a.runner;
      match a {
        case Renew(_, reply) => if w.runners[r].stage.Renewing? { RenewKeepsEpochal(w, r, reply); }
        case Acquire(_, reply) => if w.runners[r].stage.Acquiring? { AcquireKeepsEpochal(w, r, reply); }
        case Begin(_) => StagedKeepsEpochal(w, r, if w.runners[r].held then Renewing else Acquiring);
        case Start(_) =>
          if w.runners[r].stage.Elected? {
            StagedKeepsEpochal(w, r, Running(w.runners[r].stage.election, w.server.now));
          }
        case Finish(_) => FinishKeepsEpochal(w, r);
      }
    }
  }

  lemma FinishKeepsEpochal(w: World, r: nat)
    requires Epochal(w) && r < |w.runners|
    ensures Epochal(Step(w, Finish(r)))
  {
    StagedKeepsEpochal(w, r, Idle);
    var v, u := Staged(w, r, Idle), Step(w, Finish(r));
    if w.runners[r].stage.Running? {
      forall i | 0 <= i < |u.elections| ensures KnownEpoch(u, u.elections[i]) { assert KnownEpoch(v, v.elections[i]); }
      forall q | 0 <= q < |u.runners| ensures HeldRooted(u, q) { assert HeldRooted(v, q); }
    }
  }

  lemma {:induction false} RunKeepsEpochal(w: World, run: seq<Action>)
    requires Initial(w)
    ensures Epochal(Run(w, run))
  {
    if run != [] {
      RunKeepsEpochal(w, run[..|run| - 1]);
      StepKeepsEpochal(Run(w, run[..|run| - 1]), run[|run| - 1]);
    }
  }

  /** The runner elected at `i` acquired the key of that epoch. */
  ghost predicate AcquiredInEpoch(es: seq<Election>, i: nat)
    requires i < |es|
  {
    exists j :: 0 <= j <= i && es[j].runner == es[i].runner && es[j].acquired && es[j].epoch == es[i].epoch
  }

  /** The runner elected at `i` acquired the key in an earlier epoch. */
  ghost predicate AcquiredEarlier(es: seq<Election>, i: nat)
    requires i < |es|
  {
    exists j :: 0 <= j < i && es[j].runner == es[i].runner && es[j].acquired && es[j].epoch < es[i].epoch
  }

  /** Any two elections in one key epoch, however the epoch began: by an answered acquisition, by one
      whose answer was lost, or before the run. They act for one holder, at most one of them acquired
      and it came first, and each of their runners acquired in this epoch or in an earlier one; in an
      earlier one, if another runner acquired in this one. */
  lemma OneAcquisitionPerEpoch(w: World, run: seq<Action>, i: nat, k: nat)
    requires Initial(w)
    requires var es := Run(w, run).elections;
      i < |es| && k < |es| && es[i].epoch == es[k].epoch
    ensures var es := Run(w, run).elections;
      && es[i].holder == es[k].holder
      && (es[k].acquired ==> k <= i)
      && (es[i].acquired && es[k].acquired ==> i == k)
      && (AcquiredInEpoch(es, i) || AcquiredEarlier(es, i))
      && (es[k].acquired && es[i].runner != es[k].runner ==> !AcquiredInEpoch(es, i) && AcquiredEarlier(es, i))
  {
    RunKeepsEpochal(w, run);
    var es := Run(w, run).elections;
    assert i < k ==> InOrder(es[i], es[k]);
    assert k < i ==> InOrder(es[k], es[i]);
    assert RootedIn(es, i);
    var j :| 0 <= j <= i && es[j].runner == es[i].runner && es[j].acquired;
    assert j < i ==> InOrder(es[j], es[i]);
    if es[k].acquired && es[i].runner != es[k].runner {
      forall l | 0 <= l <= i && es[l].acquired && es[l].epoch == es[i].epoch ensures l == k {
        assert k < l ==> InOrder(es[k], es[l]);
        assert l < k ==> InOrder(es[l], es[k]);
      }
      assert j != i;
    }
  }

  // ---- no stalled leader

  /** Steps of others: time, or a different runner. */
  ghost predicate Others(run: seq<Action>, r: nat) {
    forall i :: 0 <= i < |run| ==> run[i].Tick? || run[i].runner != r
  }

  lemma {:induction false} OthersLeaveIt(w: World, run: seq<Action>, r: nat)
    requires Others(run, r) && r < |w.runners|
    ensures var u := Run(w, run);
      |u.runners| == |w.runners| && u.runners[r] == w.runners[r] && ElectionsOf(u.elections, r) == ElectionsOf(w.elections, r)
  {
    if run != [] {
      OthersLeaveIt(w, run[..|run| - 1], r);
      var v, a := Run(w, run[..|run| - 1]), run[|run| - 1];
      OtherStep(v, a, r);
    }
  }

  lemma OtherStep(v: World, a: Action, r: nat)
    requires (a.Tick? || a.runner != r) && r < |v.runners|
    ensures var u := Step(v, a);
      |u.runners| == |v.runners| && u.runners[r] == v.runners[r] && ElectionsOf(u.elections, r) == ElectionsOf(v.elections, r)
  {
  }

  /** How often runner `r` was elected. */
  function ElectionsOf(es: seq<Election>, r: nat): nat {
    if es == [] then 0 else ElectionsOf(es[..|es| - 1], r) + (if es[|es| - 1].runner == r then 1 else 0)
  }

  /** A renewal elects exactly if it is answered and the holder's key is live; else it falls back. */
  lemma RenewalOutcome(v: World, r: nat, reply: Reply)
    requires r < |v.runners| && v.runners[r].stage.Renewing?
    ensures
      var u := Step(v, Renew(r, reply));
      var found := reply.Answered? && v.server.LiveFor(v.runners[r].holder);
      && |u.runners| == |v.runners| && u.runners[r].ttl == v.runners[r].ttl
      && (if found then u.runners[r].stage.Elected? else u.runners[r].stage.Acquiring?)
      && ElectionsOf(u.elections, r) == ElectionsOf(v.elections, r) + (if found then 1 else 0)
  {
  }

  /** An acquisition elects exactly if it is answered and no key is live, and else ends the attempt; at
      any other stage nothing happens. */
  lemma AcquisitionOutcome(v: World, r: nat, reply: Reply)
    requires r < |v.runners|
    ensures
      var u := Step(v, Acquire(r, reply));
      var free := v.runners[r].stage.Acquiring? && reply.Answered? && !v.server.Live() && v.runners[r].ttl > 0;
      && |u.runners| == |v.runners|
      && ElectionsOf(u.elections, r) == ElectionsOf(v.elections, r) + (if free then 1 else 0)
      && (if free then u.runners[r].stage.Elected? else if v.runners[r].stage.Acquiring? then u.runners[r].stage.Idle?
          else u.runners[r] == v.runners[r])
  {
  }

  /** No stalled leader. Take any reachable world in which runner `r`, elected before, begins a fire,
      and let others act before its renewal and again before its fallback acquisition. Then `r` is
      elected once more exactly if the renewal is answered and finds its holder's live key, or the
      acquisition is answered and finds no live key. A failed or lost renewal never stops it. If it is not
      elected, it is where it was, so the next attempt goes the same way. */
  lemma NoStalledLeader(w: World, before: seq<Action>, between: seq<Action>, after: seq<Action>, r: nat, renewal: Reply, acquisition: Reply)
    requires Initial(w) && r < |Run(w, before).runners|
    requires Run(w, before).runners[r].stage.Idle? && ElectionsOf(Run(w, before).elections, r) > 0
    requires Others(between, r) && Others(after, r)
    ensures
      var v0 := Run(w, before);
      var v1 := Run(Step(v0, Begin(r)), between);
      var v2 := Run(Step(v1, Renew(r, renewal)), after);
      var v3 := Step(v2, Acquire(r, acquisition));
      var renewed := renewal.Answered? && v1.server.LiveFor(v0.runners[r].holder);
      var acquired := acquisition.Answered? && !v2.server.Live() && v0.runners[r].ttl > 0;
      && ElectionsOf(v3.elections, r) == ElectionsOf(v0.elections, r) + (if renewed || acquired then 1 else 0)
      && |v3.runners| == |v0.runners|
      && (if renewed || acquired then v3.runners[r].stage.Elected? else v3.runners[r].stage.Idle?)
  {
    var v0 := Run(w, before);
    RunKeepsEpochal(w, before);
    SomeElection(v0.elections, r);
    assert HeldRooted(v0, r);
    var b := Step(v0, Begin(r));
    OthersLeaveIt(b, between, r);
    var v1 := Run(b, between);
    RenewalOutcome(v1, r, renewal);
    var c := Step(v1, Renew(r, renewal));
    OthersLeaveIt(c, after, r);
    AcquisitionOutcome(Run(c, after), r, acquisition);
  }

  lemma {:induction false} SomeElection(es: seq<Election>, r: nat)
    requires ElectionsOf(es, r) > 0
    ensures exists i :: 0 <= i < |es| && es[i].runner == r
  {
    var n := |es| - 1;
    if es[n].runner != r { SomeElection(es[..n], r); }
  }

  /** A runner never elected does not renew: while its own supervisor's key lives, its fires skip. */
  lemma FreshRunnerWaitsForTheKey(w: World, r: nat, between: seq<Action>)
    requires r < |w.runners| && w.runners[r].stage.Idle? && !w.runners[r].held && Others(between, r)
    ensures
      var v := Run(Step(w, Begin(r)), between);
      var u := Step(v, Acquire(r, Answered));
      var free := !v.server.Live() && w.runners[r].ttl > 0;
      && ElectionsOf(u.elections, r) == ElectionsOf(w.elections, r) + (if free then 1 else 0)
      && |u.runners| == |w.runners| && (if free then u.runners[r].stage.Elected? else u.runners[r].stage.Idle?)
  {
    var b := Step(w, Begin(r));
    OthersLeaveIt(b, between, r);
    AcquisitionOutcome(Run(b, between), r, Answered);
  }

  // ---- the shape of every attempt

  /** What a runner did last: nothing yet, began an attempt, renewed or acquired with or without success,
      started or finished its closure. */
  datatype Move = Still | Began | Renewed(won: bool) | Acquired(won: bool) | Started | Finished

  /** The move of runner `r` that an action makes, if it changes that runner at all. */
  function MoveOf(v: World, a: Action, r: nat): Move {
    var u := Step(v, a);
    if a.Tick? || a.runner != r || r >= |v.runners| || r >= |u.runners| || u.runners[r] == v.runners[r] then Still
    else
      var won := |u.elections| > |v.elections|;
      match a
      case Begin(_) => Began
      case Renew(_, _) => Renewed(won)
      case Acquire(_, _) => Acquired(won)
      case Start(_) => Started
      case Finish(_) => Finished
  }

  function LastMove(w: World, run: seq<Action>, r: nat): Move {
    if run == [] then Still
    else
      var n := |run| - 1;
      var m := MoveOf(Run(w, run[..n]), run[n], r);
      if m.Still? then LastMove(w, run[..n], r) else m
  }

  /** Where a runner stands after its last move. */
  ghost predicate Placed(v: World, r: nat, m: Move) {
    && r < |v.runners|
    && (v.runners[r].held <==> ElectionsOf(v.elections, r) > 0)
    && var runner := v.runners[r];
       match m
       case Still => runner.stage.Idle? && !runner.held
       case Began => if runner.held then runner.stage.Renewing? else runner.stage.Acquiring?
       case Renewed(won) => runner.held && (if won then runner.stage.Elected? else runner.stage.Acquiring?)
       case Acquired(won) => if won then runner.held && runner.stage.Elected? else runner.stage.Idle?
       case Started => runner.held && runner.stage.Running?
       case Finished => runner.held && runner.stage.Idle?
  }

  lemma StepPlaces(v: World, a: Action, r: nat, m: Move)
    requires Placed(v, r, m)
    ensures var next := MoveOf(v, a, r); Placed(Step(v, a), r, if next.Still? then m else next)
  {
    if a.Tick? || a.runner != r { OtherStep(v, a, r); }
  }

  lemma {:induction false} RunPlaces(w: World, run: seq<Action>, r: nat)
    requires Initial(w) && r < |w.runners|
    ensures Placed(Run(w, run), r, LastMove(w, run, r))
  {
    if run != [] {
      var n := |run| - 1;
      RunPlaces(w, run[..n], r);
      StepPlaces(Run(w, run[..n]), run[n], r, LastMove(w, run[..n], r));
    }
  }

  /** Which action may follow which move, for a runner that was elected before or not. */
  predicate MayFollow(a: Action, m: Move, elected: bool) {
    match a
    case Begin(_) => m.Still? || m.Finished? || m == Acquired(false)
    case Renew(_, _) => elected && m.Began?
    case Acquire(_, _) => if elected then m == Renewed(false) else m.Began?
    case Start(_) => elected && (m == Renewed(true) || m == Acquired(true))
    case Finish(_) => elected && m.Started?
    case Tick(_) => false
  }

  lemma MovesIffMayFollow(v: World, a: Action, r: nat, m: Move)
    requires Placed(v, r, m) && (a.Tick? || a.runner == r)
    ensures !MoveOf(v, a, r).Still? <==> MayFollow(a, m, ElectionsOf(v.elections, r) > 0)
  {
  }

  /** The shape of every attempt, in every run: an action of a runner takes effect if and only if it may
      follow the runner's last move. So an attempt begins exactly when the one before it is over, skipped
      or fired and finished. A runner elected before renews first, every time, and acquires only after a
      renewal that failed; one never elected never renews. A closure starts only after an election and
      finishes only after it started. */
  lemma RenewsFirst(w: World, run: seq<Action>, a: Action, r: nat)
    requires Initial(w) && r < |w.runners| && (a.Tick? || a.runner == r)
    ensures !MoveOf(Run(w, run), a, r).Still?
       <==> MayFollow(a, LastMove(w, run, r), ElectionsOf(Run(w, run).elections, r) > 0)
  {
    RunPlaces(w, run, r);
    MovesIffMayFollow(Run(w, run), a, r, LastMove(w, run, r));
  }

  // ---- the history is true

  /** A winning move is recorded with the runner, its holder and the server time; nothing else is. */
  lemma ElectionIsRecorded(v: World, a: Action)
    ensures
      var u := Step(v, a);
      var won := !a.Tick? && MoveOf(v, a, a.runner) in {Renewed(true), Acquired(true)};
      if !won then u.elections == v.elections
      else
        && |u.elections| == |v.elections| + 1 && u.elections[..|v.elections|] == v.elections
        && var e := u.elections[|v.elections|];
           && e.runner == a.runner < |v.runners| && e.holder == v.runners[a.runner].holder && e.time == v.server.now
           && e.acquired == a.Acquire? && u.runners[a.runner].stage == Elected(|v.elections|)
  {
  }

  /** The key changes by time, by renewals and by acquisitions that are sent and reach it, whether or not
      they are answered, and by nothing else. */
  lemma KeyIsChangedByCommands(v: World, a: Action)
    ensures
      var u := Step(v, a);
      match a
      case Tick(ms) => u.server == Server(v.server.now + ms, v.server.key, v.server.epochs)
      case Renew(r, reply) =>
        u.server == if r < |v.runners| && v.runners[r].stage.Renewing? && !reply.Unreached?
                    then CompareAndExpire(v.server, v.runners[r].holder, v.runners[r].ttl).0 else v.server
      case Acquire(r, reply) =>
        u.server == if r < |v.runners| && v.runners[r].stage.Acquiring? && !reply.Unreached?
                    then SetNxPx(v.server, v.runners[r].holder, v.runners[r].ttl).0 else v.server
      case _ => u.server == v.server
  {
  }

  /** An execution is recorded with its runner's election and the server times of its start and end. */
  lemma ExecutionIsRecorded(v: World, between: seq<Action>, r: nat)
    requires r < |v.runners| && v.runners[r].stage.Elected? && Others(between, r)
    ensures
      var u := Run(Step(v, Start(r)), between);
      Step(u, Finish(r)).executions
      == u.executions + [Execution(v.runners[r].stage.election, v.server.now, u.server.now)]
  {
    OthersLeaveIt(Step(v, Start(r)), between, r);
  }
}
