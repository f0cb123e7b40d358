/** The leader lease: one key with an expiry on a key server, and any number of runners that take it
    (src/leader/redis_lease.rs, src/leader/mod.rs and the leader gate of src/runner.rs).

    A run is any interleaving of atomic steps. A runner's renewal and its fallback acquisition are
    two steps, and every other runner, and time, may move between them. Times are server milliseconds. */
module Lease {
  import opened Options

  const U64_MAX: nat := 0xFFFF_FFFF_FFFF_FFFF
  const I64_MAX: nat := 0x7FFF_FFFF_FFFF_FFFF

  /** A duration in nanoseconds as the millisecond argument of the commands: rounded down, saturating
      first at 64 unsigned and then at 63 bits. */
  function TtlMs(ttl: nat): nat {
    var millis := ttl / 1_000_000;
    var unsigned := if millis <= U64_MAX then millis else U64_MAX;
    if unsigned <= I64_MAX then unsigned else I64_MAX
  }

  /** It is the largest whole number of milliseconds the duration covers, up to the 63-bit maximum. */
  lemma TtlMsIsExact(ttl: nat, ms: nat)
    ensures ms <= TtlMs(ttl) <==> ms <= I64_MAX && ms * 1_000_000 <= ttl
  {
  }

  // ---- the key server

  /** The key: who holds it, when it expires, and which acquisition created it. */
  datatype Key = Key(holder: string, expiry: nat, epoch: nat)

  datatype Server = Server(now: nat, key: Option<Key>, epochs: nat) {
    predicate Live() { key.Some? && now < key.value.expiry }

    predicate LiveFor(holder: string) { Live() && key.value.holder == holder }
  }

  /** `SET key holder NX PX ttl`: succeeds if no live key is there; a zero expiry is an error. */
  function SetNxPx(v: Server, holder: string, ttl: nat): (r: (Server, bool))
    ensures r.1 <==> ttl > 0 && !v.Live()
    ensures r.1 ==> r.0.LiveFor(holder) && r.0.key.value.expiry == v.now + ttl
    ensures !r.1 ==> r.0 == v
  {
    if ttl > 0 && !v.Live() then
      (v.(key := Some(Key(holder, v.now + ttl, v.epochs)), epochs := v.epochs + 1), true)
    else
      (v, false)
  }

  /** The renewal script: compare the holder, then set the expiry; a zero expiry deletes the key. */
  function CompareAndExpire(v: Server, holder: string, ttl: nat): (r: (Server, bool))
    ensures r.1 <==> v.LiveFor(holder)
    ensures r.1 && ttl > 0 ==> r.0.LiveFor(holder) && r.0.key.value.expiry == v.now + ttl
    ensures r.1 && ttl == 0 ==> r.0.key.None?
    ensures r.1 && ttl > 0 ==> r.0.key.value.epoch == v.key.value.epoch
    ensures r.0.now == v.now && r.0.epochs == v.epochs && (!r.1 ==> r.0 == v)
  {
    if v.LiveFor(holder) then
      (v.(key := if ttl == 0 then None else Some(v.key.value.(expiry := v.now + ttl))), true)
    else
      (v, false)
  }

  /** What becomes of a command: executed and answered, executed with the answer lost, or not executed. */
  datatype Reply = Answered | Lost | Unreached

  /** `acquire`, with what becomes of its command: any backend error reports false, whether or not the
      command took effect. */
  function AcquireReply(v: Server, holder: string, ttl: nat, reply: Reply): (Server, bool) {
    var (after, taken) := SetNxPx(v, holder, ttl);
    if reply.Unreached? then (v, false) else (after, taken && reply.Answered?)
  }

  /** `renew`, likewise. */
  function RenewReply(v: Server, holder: string, ttl: nat, reply: Reply): (Server, bool) {
    var (after, extended) := CompareAndExpire(v, holder, ttl);
    if reply.Unreached? then (v, false) else (after, extended && reply.Answered?)
  }

  /** The trait promises that a call is true exactly if the holder then holds the lease. */
  predicate Promised(r: (Server, bool), holder: string) { r.1 <==> r.0.LiveFor(holder) }

  /** `acquire` keeps the promise if and only if the holder does not hold the lease already, and no
      successful command has its answer lost. "True means held" is kept always. */
  lemma AcquirePromise(v: Server, holder: string, ttl: nat, reply: Reply)
    ensures Promised(AcquireReply(v, holder, ttl, reply), holder)
       <==> !v.LiveFor(holder) && !(reply.Lost? && ttl > 0 && !v.Live())
    ensures var r := AcquireReply(v, holder, ttl, reply); r.1 ==> r.0.LiveFor(holder)
  {
  }

  /** `renew` keeps it if and only if the holder does not hold the lease, or it is extended and
      answered, or it is deleted by a zero time to live and the answer is lost. */
  lemma RenewPromise(v: Server, holder: string, ttl: nat, reply: Reply)
    ensures Promised(RenewReply(v, holder, ttl, reply), holder)
       <==> !v.LiveFor(holder) || (if ttl > 0 then reply.Answered? else reply.Lost?)
    ensures var r := RenewReply(v, holder, ttl, reply); r.1 && ttl > 0 ==> r.0.LiveFor(holder)
  {
  }

  /** The key as an object that the two lease calls and time change in place. */
  class RedisKey {
    var now: nat
    var key: Option<Key>
    var epochs: nat

    function View(): Server
      reads this
    {
      Server(now, key, epochs)
    }

    constructor ()
      ensures View() == Server(0, None, 0)
    {
      now, key, epochs := 0, None, 0;
    }

    /** Time passes; a key whose expiry it reaches is no longer live. */
    method Pass(ms: nat)
      modifies this
      ensures View() == old(View()).(now := old(now) + ms)
      ensures View().Live() <==> old(View()).Live() && old(now) + ms < key.value.expiry
    {
      now := now + ms;
    }

    /** `acquire`: any backend error reports false, whether or not the command took effect. */
    method Acquire(holder: string, ttl: nat, reply: Reply) returns (elected: bool)
      modifies this
      ensures (View(), elected) == AcquireReply(old(View()), holder, TtlMs(ttl), reply)
      ensures elected <==> reply.Answered? && TtlMs(ttl) > 0 && !old(View()).Live()
      ensures elected ==> View().LiveFor(holder) && key.value.expiry == now + TtlMs(ttl)
      ensures (elected <==> View().LiveFor(holder))
         <==> !old(View()).LiveFor(holder) && !(reply.Lost? && TtlMs(ttl) > 0 && !old(View()).Live())
    {
      elected := false;
      if !reply.Unreached? && TtlMs(ttl) > 0 && !(key.Some? && now < key.value.expiry) {
        key := Some(Key(holder, now + TtlMs(ttl), epochs));
        epochs := epochs + 1;
        elected := reply.Answered?;
      }
    }

    /** `renew`: the compare-and-expire script. */
    method Renew(holder: string, ttl: nat, reply: Reply) returns (elected: bool)
      modifies this
      ensures (View(), elected) == RenewReply(old(View()), holder, TtlMs(ttl), reply)
      ensures elected <==> reply.Answered? && old(View()).LiveFor(holder)
      ensures elected && TtlMs(ttl) > 0 ==> View().LiveFor(holder) && key.value.expiry == now + TtlMs(ttl)
    {
      elected := false;
      if !reply.Unreached? && key.Some? && now < key.value.expiry && key.value.holder == holder {
        key := if TtlMs(ttl) == 0 then None else Some(key.value.(expiry := now + TtlMs(ttl)));
        elected := reply.Answered?;
      }
    }
  }

  /** A holder whose key is live is refused its own key, whatever becomes of the command. */
  lemma AcquireRefusesItsOwnKey(v: Server, holder: string, ttl: nat, reply: Reply)
    requires v.LiveFor(holder)
    ensures AcquireReply(v, holder, ttl, reply) == (v, false) && !Promised(AcquireReply(v, holder, ttl, reply), holder)
  {
  }

  // ---- the runners

  /** Where a runner stands between two of its awaits. */
  datatype Stage = Idle | Renewing | Acquiring | Elected(election: nat) | Running(election: nat, start: nat)

  /** A registered leader job: `ttl` is `TtlMs` of the duration captured when it was registered, and
      `held` is set at its first election and never cleared. */
  datatype Runner = Runner(holder: string, ttl: nat, held: bool, stage: Stage)

  datatype Election = Election(runner: nat, holder: string, ttl: nat, time: nat, epoch: nat, acquired: bool)

  datatype Execution = Execution(election: nat, start: nat, end: nat)

  datatype World = World(server: Server, runners: seq<Runner>, elections: seq<Election>, executions: seq<Execution>)

  datatype Action =
    | Tick(ms: nat)
    | Begin(runner: nat)
    | Renew(runner: nat, reply: Reply)
    | Acquire(runner: nat, reply: Reply)
    | Start(runner: nat)
    | Finish(runner: nat)

  function Staged(w: World, r: nat, stage: Stage): World
    requires r < |w.runners|
  {
    w.(runners := w.runners[r := w.runners[r].(stage := stage)])
  }

  /** The election of runner `r`, recorded with its server time and the epoch of the key. */
  function Elect(w: World, r: nat, epoch: nat, acquired: bool): World
    requires r < |w.runners|
  {
    var runner := w.runners[r];
    w.(runners := w.runners[r := runner.(held := true, stage := Elected(|w.elections|))],
       elections := w.elections + [Election(r, runner.holder, runner.ttl, w.server.now, epoch, acquired)])
  }

  function RenewStep(w: World, r: nat, reply: Reply): World
    requires r < |w.runners|
  {
    var (server, elected) := RenewReply(w.server, w.runners[r].holder, w.runners[r].ttl, reply);
    if elected then Elect(w.(server := server), r, w.server.key.value.epoch, false)
    else Staged(w.(server := server), r, Acquiring)
  }

  function AcquireStep(w: World, r: nat, reply: Reply): World
    requires r < |w.runners|
  {
    var (server, elected) := AcquireReply(w.server, w.runners[r].holder, w.runners[r].ttl, reply);
    if elected then Elect(w.(server := server), r, w.server.epochs, true)
    else Staged(w.(server := server), r, Idle)
  }

  /** One atomic step. A step whose runner is not at its stage changes nothing. */
  function Step(w: World, a: Action): World {
    match a
    case Tick(ms) => w.(server := w.server.(now := w.server.now + ms))
    case Begin(r) =>
      if r < |w.runners| && w.runners[r].stage.Idle? then
        Staged(w, r, if w.runners[r].held then Renewing else Acquiring)
      else w
    case Renew(r, reply) =>
      if r < |w.runners| && w.runners[r].stage.Renewing? then RenewStep(w, r, reply) else w
    case Acquire(r, reply) =>
      if r < |w.runners| && w.runners[r].stage.Acquiring? then AcquireStep(w, r, reply) else w
    case Start(r) =>
      if r < |w.runners| && w.runners[r].stage.Elected? then
        Staged(w, r, Running(w.runners[r].stage.election, w.server.now))
      else w
    case Finish(r) =>
      if r < |w.runners| && w.runners[r].stage.Running? then
        var stage := w.runners[r].stage;
        Staged(w, r, Idle).(executions := w.executions + [Execution(stage.election, stage.start, w.server.now)])
      else w
  }

  /** The world after a whole run. */
  function Run(w: World, run: seq<Action>): World {
    if run == [] then w else Step(Run(w, run[..|run| - 1]), run[|run| - 1])
  }

  lemma RunSnoc(w: World, run: seq<Action>, a: Action)
    ensures Run(w, run + [a]) == Step(Run(w, run), a)
  {
    assert (run + [a])[..|run + [a]| - 1] == run;
  }

  /** A world in which nothing has happened: any runners, any time, perhaps a key someone else left. */
  ghost predicate Initial(w: World) {
    && w.elections == [] && w.executions == []
    && (w.server.key.Some? ==> w.server.key.value.epoch < w.server.epochs)
    && (forall r :: 0 <= r < |w.runners| ==> !w.runners[r].held && w.runners[r].stage == Idle)
  }
}
