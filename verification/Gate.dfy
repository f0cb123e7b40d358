/** The leader gate of a fire inside whole runs of the lease protocol: what one runner's counters make
    of the answers it got from the shared key. */
module Gate {
  import Lease
  import LeaseLiveness
  import opened Runner

  /** What one pass through the gate came to: elected by renewing, by acquiring, or not at all. */
  datatype Answer = Answer(renewed: bool, acquired: bool)

  /** The answer that step `a` of a lease run gives runner `r`, if it ends a pass of that runner. */
  function AnswerOf(v: Lease.World, a: Lease.Action, r: nat): seq<Answer> {
    if r >= |v.runners| then []
    else
      var runner := v.runners[r];
      match a
      case Renew(q, reply) =>
        if q == r && runner.stage.Renewing? && Lease.RenewReply(v.server, runner.holder, runner.ttl, reply).1
        then [Answer(true, false)] else []
      case Acquire(q, reply) =>
        if q == r && runner.stage.Acquiring?
        then [Answer(false, Lease.AcquireReply(v.server, runner.holder, runner.ttl, reply).1)] else []
      case _ => []
  }

  /** All answers runner `r` gets in a run, in order. */
  function Answers(w: Lease.World, run: seq<Lease.Action>, r: nat): seq<Answer> {
    if run == [] then []
    else
      var n := |run| - 1;
      Answers(w, run[..n], r) + AnswerOf(Lease.Run(w, run[..n]), run[n], r)
  }

  /** The attempts of a loop that is running when it makes them, and whose gate gets these answers. */
  ghost predicate Follows(spec: Spec, attempts: seq<Attempt>, answers: seq<Answer>) {
    && |attempts| == |answers|
    && (forall i :: 0 <= i < |attempts| ==> Answer(attempts[i].renewed, attempts[i].acquired) == answers[i])
    && (forall i :: 0 <= i < |attempts| ==> After(spec, attempts[..i]).alive)
  }

  predicate PassedGate(e: Event) { !e.Skip? }

  /** An answer that elects is one more election and raises the flag; nothing else does either. */
  ghost predicate Moves(v: Lease.World, u: Lease.World, r: nat, answer: seq<Answer>)
    requires r < |v.runners|
  {
    var elected := answer != [] && (answer[0].renewed || answer[0].acquired);
    && |u.runners| == |v.runners|
    && |answer| <= 1 && (answer != [] && answer[0].renewed ==> v.runners[r].held)
    && (u.runners[r].held <==> v.runners[r].held || elected)
    && LeaseLiveness.ElectionsOf(u.elections, r) == LeaseLiveness.ElectionsOf(v.elections, r) + (if elected then 1 else 0)
  }

  lemma StepMoves(v: Lease.World, a: Lease.Action, r: nat)
    requires r < |v.runners| && (v.runners[r].stage.Renewing? ==> v.runners[r].held)
    ensures Moves(v, Lease.Step(v, a), r, AnswerOf(v, a, r))
  {
  }

  /** The counters' view of the gate is the protocol's: the leader flag of the runner is up exactly if
      its flag in the protocol is, and as many of its fires passed the gate as it was elected. */
  ghost predicate Matches(spec: Spec, attempts: seq<Attempt>, u: Lease.World, r: nat) {
    && r < |u.runners|
    && After(spec, attempts).held == u.runners[r].held
    && Count(Trace(spec, attempts), PassedGate) == LeaseLiveness.ElectionsOf(u.elections, r)
  }

  /** The attempts go on with what the answer, if any, makes of the next one. */
  ghost predicate GoesOn(spec: Spec, init: seq<Attempt>, attempts: seq<Attempt>, answer: seq<Answer>) {
    && (answer == [] ==> attempts == init)
    && (answer != [] ==>
          && |attempts| == |init| + 1 && init == attempts[..|init|] && After(spec, init).alive
          && Answer(attempts[|init|].renewed, attempts[|init|].acquired) == answer[0])
  }

  lemma MovesMatch(spec: Spec, init: seq<Attempt>, attempts: seq<Attempt>, v: Lease.World, u: Lease.World, r: nat, answer: seq<Answer>)
    requires spec.leader && Matches(spec, init, v, r) && Moves(v, u, r, answer) && GoesOn(spec, init, attempts, answer)
    ensures Matches(spec, attempts, u, r)
  {
    if answer != [] { AttemptPasses(spec, init, attempts); }
  }

  /** In every lease run, the attempts that follow a runner's answers match the protocol. */
  lemma {:induction false} GateMatchesLease(w: Lease.World, run: seq<Lease.Action>, r: nat, spec: Spec, attempts: seq<Attempt>)
    requires Lease.Initial(w) && r < |w.runners| && spec.leader
    requires Follows(spec, attempts, Answers(w, run, r))
    ensures Matches(spec, attempts, Lease.Run(w, run), r)
  {
    if run == [] {
      NoElections(w.elections, r);
    } else {
      var n := |run| - 1;
      var v, before := Lease.Run(w, run[..n]), Answers(w, run[..n], r);
      var init := attempts[..|before|];
      FollowsPrefix(spec, attempts, before, AnswerOf(v, run[n], r));
      GateMatchesLease(w, run[..n], r, spec, init);
      LeaseLiveness.RunKeepsEpochal(w, run[..n]);
      assert LeaseLiveness.HeldRooted(v, r);
      StepMoves(v, run[n], r);
      MovesMatch(spec, init, attempts, v, Lease.Run(w, run), r, AnswerOf(v, run[n], r));
    }
  }

  lemma FollowsPrefix(spec: Spec, attempts: seq<Attempt>, before: seq<Answer>, more: seq<Answer>)
    requires Follows(spec, attempts, before + more) && |more| <= 1
    ensures var init := attempts[..|before|];
      Follows(spec, init, before) && GoesOn(spec, init, attempts, more)
  {
    var init := attempts[..|before|];
    forall i | 0 <= i < |init| ensures After(spec, init[..i]).alive { assert init[..i] == attempts[..i]; }
    if more != [] { assert (before + more)[|attempts| - 1] == more[0]; }
  }

  lemma NoElections(es: seq<Lease.Election>, r: nat)
    requires es == []
    ensures LeaseLiveness.ElectionsOf(es, r) == 0
  {
  }

  /** One more attempt of a running loop: it passes the gate and raises the flag exactly if elected. */
  lemma AttemptPasses(spec: Spec, init: seq<Attempt>, attempts: seq<Attempt>)
    requires spec.leader && |attempts| == |init| + 1 && init == attempts[..|init|] && After(spec, init).alive
    ensures
      var elected := Elected(spec, After(spec, init).held, attempts[|init|]);
      && (After(spec, attempts).held <==> After(spec, init).held || elected)
      && Count(Trace(spec, attempts), PassedGate) == Count(Trace(spec, init), PassedGate) + (if elected then 1 else 0)
  {
    var t, a := Trace(spec, init), attempts[|init|];
    assert Held(spec, t) == After(spec, init).held && !Ended(spec, t) by { FiresMatchTrace(spec, init); }
    StepPasses(spec, After(spec, init), a);
    Snoc(spec, t, EventOf(spec, Held(spec, t), a), PassedGate);
  }

  lemma StepPasses(spec: Spec, s: State, a: Attempt)
    requires spec.leader && s.alive
    ensures FireStep(spec, s, a).held <==> s.held || Elected(spec, s.held, a)
    ensures PassedGate(EventOf(spec, s.held, a)) <==> Elected(spec, s.held, a)
  {
  }
}
