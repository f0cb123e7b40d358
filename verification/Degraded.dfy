/** The degraded flag and the failure counter are stored one after the other (src/runner.rs): how far they
    can be apart in memory, in every interleaving. */
module Degraded {
  import opened Runner
  import opened Snapshot

  /** The flag is up exactly if the failure counter is at least the budget, and at least one. */
  predicate FlagAgrees(spec: Spec, c: Counters) {
    c.degraded <==> c.consecutive >= 1 && c.consecutive >= spec.failureBudget
  }

  /** While the pending stores are made, the flag agrees at every moment but just before its own store. */
  ghost predicate FlagFollows(spec: Spec, c: Counters, todo: seq<Write>)
    decreases |todo|
  {
    if todo == [] then FlagAgrees(spec, c)
    else (todo[0].SetDegraded? || FlagAgrees(spec, c)) && FlagFollows(spec, Apply(c, todo[0]), todo[1..])
  }

  lemma WritesFollow(spec: Spec, c: Counters, e: Event)
    requires FlagAgrees(spec, c) && c.consecutive < U32 - 1
    ensures FlagFollows(spec, c, WritesOf(spec, c, e))
  {
    if e.Fail? {
      FailFollows(spec, c, e);
    } else if e.Done? {
      FollowsThree(spec, c, FiresUp, ConsecutiveReset, SetDegraded(false), []);
      assert [FiresUp, ConsecutiveReset, SetDegraded(false)] + [] == WritesOf(spec, c, e);
    } else if e.Skip? || e.Pause? {
      var w := if e.Skip? then SkipsUp else PausedUp;
      assert [w][1..] == [];
    }
  }

  lemma FollowsThree(spec: Spec, c: Counters, u: Write, v: Write, w: Write, rest: seq<Write>)
    ensures FlagFollows(spec, c, [u, v, w] + rest)
       <==> (var d := Apply(c, u); var e := Apply(d, v);
             && (u.SetDegraded? || FlagAgrees(spec, c)) && (v.SetDegraded? || FlagAgrees(spec, d))
             && (w.SetDegraded? || FlagAgrees(spec, e)) && FlagFollows(spec, Apply(e, w), rest))
  {
    assert [u, v, w] + rest == [u] + ([v] + ([w] + rest));
    FollowsCons(spec, c, u, [v] + ([w] + rest));
    FollowsCons(spec, Apply(c, u), v, [w] + rest);
    FollowsCons(spec, Apply(Apply(c, u), v), w, rest);
  }

  lemma FollowsCons(spec: Spec, c: Counters, w: Write, rest: seq<Write>)
    ensures FlagFollows(spec, c, [w] + rest)
       <==> (w.SetDegraded? || FlagAgrees(spec, c)) && FlagFollows(spec, Apply(c, w), rest)
  {
    assert ([w] + rest)[1..] == rest;
  }

  lemma FailFollows(spec: Spec, c: Counters, e: Event)
    requires e.Fail? && FlagAgrees(spec, c) && c.consecutive < U32 - 1
    ensures FlagFollows(spec, c, WritesOf(spec, c, e))
  {
    var over := (c.consecutive + 1) % U32 >= spec.failureBudget;
    var flag := if over then [SetDegraded(true)] else [];
    var error := if over && !c.degraded && spec.hooked && e.hookPanics then [] else [SetError(e.message)];
    var d := Apply(Apply(Apply(c, FiresUp), FailuresUp), ConsecutiveUp);
    assert FlagFollows(spec, d.(degraded := d.degraded || over), error) by { assert error != [] ==> error[1..] == []; }
    assert over ==> (flag + error)[1..] == error;
    assert !over ==> flag + error == error;
    assert FlagFollows(spec, d, flag + error);
    assert WritesOf(spec, c, e) == [FiresUp, FailuresUp, ConsecutiveUp] + (flag + error);
    FollowsThree(spec, c, FiresUp, FailuresUp, ConsecutiveUp, flag + error);
  }

  /** The flag follows the counter, which has made no more steps than there were stores. */
  ghost predicate Following(spec: Spec, w: World) {
    && |w.log| > 0
    && FlagFollows(spec, w.log[|w.log| - 1], w.todo) && w.log[|w.log| - 1].consecutive < |w.log|
  }

  lemma StepKeepsFollowing(spec: Spec, w: World, a: Action)
    requires Following(spec, w) && |w.log| < U32
    ensures Following(spec, Step(spec, w, a))
  {
    match a {
      case Begin(e) =>
        if w.todo == [] { WritesFollow(spec, w.log[|w.log| - 1], e); }
      case Store =>
        if w.todo != [] { CounterStep(w.log[|w.log| - 1], w.todo[0]); }
      case Read(_) =>
    }
  }

  lemma CounterStep(c: Counters, w: Write)
    ensures Apply(c, w).consecutive <= c.consecutive + 1
  {
  }

  /** In every interleaving before 2^32 stores, the flag in memory agrees with the failure counter, but
      for the one moment between the counter's store and its own. */
  lemma {:induction false} FlagFollowsCounter(spec: Spec, readers: nat, run: seq<Action>)
    requires |Run(spec, readers, run).log| < U32
    ensures Following(spec, Run(spec, readers, run))
  {
    if run != [] {
      var n := |run| - 1;
      FlagFollowsCounter(spec, readers, run[..n]);
      StepKeepsFollowing(spec, Run(spec, readers, run[..n]), run[n]);
    }
  }
}
