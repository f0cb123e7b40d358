# Verified model of worker-kit

worker-kit runs periodic jobs: every registered job has a loop that sleeps to its next jittered tick,
passes a leader gate, fires its closure through a circuit breaker and records the outcome; on shutdown
the supervisor drains the loops and reports. This project models that behaviour in Dafny and proves
what every run of it keeps.

`dafny verify dfyconfig.toml` checks the whole project.

| file | models |
|---|---|
| `Words.dfy` | 64-bit words: wrapping arithmetic, shift, exclusive or, and why each scramble step is invertible |
| `Rng.dfy` | SplitMix64, `mix64` and the bounded draw |
| `Jitter.dfy` | the jitter window, the delay, and how many seeds give each delay |
| `Schedule.dfy` | triggers and the job loop: ticks, coalescing, bursts, capacity |
| `Draws.dfy` | which draw of its generator each turn of the loop takes |
| `Seeding.dfy` | the effective seed of a worker, and what a supervisor's seed reproduces |
| `Runner.dfy` | one fire: leader gate, breaker, closure, counters, degraded edge |
| `Attempts.dfy` | what a runner's state says about the attempts themselves |
| `Worker.dfy` | a whole job loop: startup fire, scheduled fires, drain pass, summary |
| `Lease.dfy` | the key server and the runners that share one key, as atomic steps |
| `LeaseSafety.dfy` | lease exclusion and non-overlapping fires over whole runs |
| `LeaseLiveness.dfy` | key epochs, and why a lapsed leader is not stuck |
| `Gate.dfy` | the leader gate of a runner inside whole lease runs |
| `Identity.dfy` | holder strings, and exclusion between supervisors |
| `Snapshot.dfy` | counters read field by field while a fire writes them |
| `Degraded.dfy` | how far the degraded flag and the failure counter can be apart in memory |
| `Report.dfy` | draining in any order, filling gaps, the stable name-sorted report |
| `Pressure.dfy` | the pressure-stall file parser |
| `Options.dfy` | the option type |

## Main results

- **Lease exclusion** (`LeaseSafety.Exclusion`): any number of supervisors and runners, every
  interleaving, commands that fail before or after they took effect, and other runners acting between
  a failed renewal and its fallback acquisition. After an election of holder h, no other holder is
  elected for the shortest time any of h's runners asks for. With one TTL
  (`LeaseSafety.CommonTtlExclusion`) elections of different holders are a TTL apart. TTLs are captured
  per registration, so they can differ; `LeaseSafety.OwnTtlExcludesIffSiblingsAgree` proves that every
  runner's own TTL is honoured in every run if and only if, where another holder with a positive TTL
  competes, runners sharing a holder agree on their positive TTLs, and `LeaseSafety.UndercutRun` builds
  the failing run otherwise. `LeaseSafety.NoOverlapIffBoundsFit` says in the same way exactly which
  bounds on a fire's duration keep the fires of different holders apart in every run.
- **Schedule** (`Schedule.RunnerSchedule` and the lemmas it uses): the tick has a closed form without
  any jitter term; no window of width W holds more than W / I + 2 starts, and that bound is attained
  for every I and W. For any schedule, finite ones included, `Schedule.NeverEarly` and
  `Schedule.MissedTicksCollapse`; with room in every turn, `Schedule.Capacity`.
- **Fires** (`Runner.FiresMatchTrace`): counters, degraded flag, hook calls, last error and leader flag
  equal a reference computed from the sequence of events, through counter wrap-around, and
  `Attempts.StateTellsAttempts` reads them off the attempts' own results, messages included;
  `Worker.RunWorker` makes them in a whole loop, whose summary accounts for every fire. What the closure
  and the breaker saw is kept separately, from the operation's own result, and
  `Runner.BreakerSeesWhatIsRecorded` and `Runner.Conservation` prove that the two agree, and
  `Runner.BreakerIsToldTheTruth` that both agree with what the jobs did.
  `Gate.GateMatchesLease` ties the gate in these fires to the lease protocol.
- **Generator** (`Rng.FullPeriod`, `Jitter.JitterIsFair`, `Draws.TurnExactly`): every turn's jitter is the
  next draw of the worker's generator, folded into the window of the time left; two draws agree exactly if their positions
  agree modulo 2^64, and any two delays are hit by numbers of seeds that differ by at most one.
- **Report** (`Report.ReportIsHonest`): for every completion order, set of failed joins and set of loops
  cut off, each registered runner has exactly one entry, under its own name and in stable name order;
  it is exactly what the runner's events amount to if its loop ended, and between all earlier snapshots
  and the final counters otherwise.
- **Snapshots** (`Snapshot.RunIsTruthful`, `Snapshot.TornExactly`): every field is the memory's at its
  load, in every interleaving, and exactly when a snapshot shows more failures than fires.

## Where the code and its documentation differ

The model follows the code.

- `Lease::acquire` is documented as true when the holder holds the lease; the Redis lease refuses a
  holder whose own key is live (`Lease.AcquireRefusesItsOwnKey`). `Lease.AcquirePromise` and
  `Lease.RenewPromise` state exactly when the documented meaning holds; "true means held" holds always
  for `acquire`, and a second leader job of the same supervisor skips until the key lapses
  (`LeaseLiveness.FreshRunnerWaitsForTheKey`).
- `random_range` is documented as bounded by `[lo, hi]`; that holds if and only if `lo` fits in
  64 bits and `lo <= hi` (`Rng.RangeBoundIffLowEndFits`). Its documentation also speaks of a
  proportional mapping; the code takes a remainder.
- A panic is documented to count as a failure. One raised while the closure builds its future unwinds
  through the loop and is in no counter (`Runner.Conservation` states on the attempts exactly when
  counters account for every call, `Runner.EagerPanicIsUncounted` gives the input).
- An exhausted cron schedule is documented to park and re-evaluate; after the park it fires, and goes on
  doing so (`Schedule.ExhaustedStillFires`; `Schedule.OneTickFiresTwice` gives the input). A fire is due without any tick of the schedule exactly if
  the schedule had none left at the fire before it (`Schedule.FiresWithoutTickIffRunOut`).
- A snapshot can report more failures than fires (`Snapshot.SnapshotsCanTear`), exactly under the
  condition of `Snapshot.TornExactly`.
- A seeded supervisor is documented to reproduce its jitter sequence across runs. The seed of each worker
  is combined with a hash of its name under a random key, and a run is reproduced if and only if jitter is
  off or the hash is the same again (`Seeding.RunsReproducedIffHashesAgree`,
  `Seeding.DrawsReproducedIffHashesAgree`). `Seeding.SeededDelaysCanDiffer` gives two hashes whose delays
  differ, and `Seeding.SeedFixesNothing` shows that a seed leaves every delay as likely as without one.

## Model

| member | source | states |
|---|---|---|
| Words.ShiftThenUnshift | src/trigger.rs:191-193 | a right xor-shift of a 64-bit word by at least 22 bits can be undone |
| Words.UnshiftThenShift | src/trigger.rs:191-193 | every word is the xor-shift of some word, so the step is onto |
| Words.MulRoundTrip | src/trigger.rs:191-192 | wrapping multiplication by an odd constant is undone by its inverse modulo 2^64 |
| Words.ShrIsQuotient | src/trigger.rs:191-193 | a right shift divides by a power of two |
| Words.XorBit | src/trigger.rs:191-193 | each bit of an exclusive or is set exactly if the two bits differ |
| Rng.MixIsSplitMix | src/trigger.rs:189-194 | `mix64` in plain arithmetic, with the reference constants and shifts |
| Rng.MixIsBijective | src/trigger.rs:189-194 | `mix64` has a two-sided inverse on 64-bit words |
| Rng.MixIsInjective | src/trigger.rs:189-194 | equal scrambles come from equal words and only from them |
| Rng.DrawClosedForm | src/rng.rs:24-30 | the n-th draw from a seed is `mix64(seed + (n-1)*gamma)` |
| Rng.FullPeriod | src/rng.rs:8-30 | two draws agree if and only if their positions agree modulo 2^64 |
| Rng.EveryWordIsDrawn | src/rng.rs:8-30 | every word occurs in any 2^64 consecutive draws |
| Rng.RangeStaysInside | src/rng.rs:42-56 | the bounded draw never wraps: it lies between the truncated ends |
| Rng.RangeIsCovered | src/rng.rs:42-56 | every value between the truncated ends is drawn |
| Rng.RangeBoundIffLowEndFits | src/rng.rs:39-56 | the documented bound holds for every draw exactly if the lower end fits in 64 bits and the range is not empty |
| Rng.RangeBoundCanFail | src/rng.rs:46-55 | a lower end of 2^64 ns truncates to zero and breaks the bound |
| Rng.SplitMix64.NextU64 | src/rng.rs:24-30 | advances the state by gamma and returns the scramble of the state before it |
| Rng.SplitMix64.RandomRange | src/rng.rs:42-56 | takes exactly one draw and folds it into the truncated range |
| Jitter.Window | src/trigger.rs:133-136 | the window never exceeds the gap, for any fraction |
| Jitter.WindowIsScaledGap | src/trigger.rs:130-136 | for a fraction of at most one the window is within half a nanosecond of the scaled gap, and for a greater one it is the gap |
| Jitter.WindowIsMonotone | src/trigger.rs:133-136 | a longer gap never has a shorter window |
| Jitter.DrawDelay | src/trigger.rs:141-147 | the delay is within the window; the generator advances by one step, and not at all for an empty window |
| Jitter.DrawDelaySeeded | src/trigger.rs:154-156 | the delay is determined by gap and seed and lies within window and gap |
| Jitter.DelayInWindow | src/trigger.rs:133-147 | the bound for every gap and state, also where the window overflows 64 bits |
| Jitter.DelaysProduced | src/trigger.rs:141-156 | some seed gives delay d exactly if d is at most the window modulo 2^64 |
| Jitter.WholeWindowIffItFits | src/trigger.rs:138-147 | the whole range [0, window] is produced if and only if the window fits in 64 bits |
| Jitter.SeedsPerDelay | src/trigger.rs:141-156 | the exact number of seeds that give each delay, for every gap |
| Jitter.JitterIsFair | src/rng.rs:39-56 | for every gap, no delay up to the window modulo 2^64 is missed and the numbers of seeds of any two differ by at most one |
| Schedule.TakeTurn | src/runner.rs:207-232 | one loop turn: gap, jitter draw, the winning arm and the coalesced tick |
| Schedule.FollowArm | src/runner.rs:213-232 | after the draw, a signal ends or repeats the wait and the timer fires |
| Schedule.RunLoop | src/runner.rs:179-241 | the loop with its own generator refines the run function over every sequence of turns |
| Schedule.SplitMixIsBounded | src/trigger.rs:141-147 | the runner's jitter source never delays beyond the gap |
| Schedule.SplitMixIsWithin | src/trigger.rs:133-147 | for gaps up to one period its delays stay within the window of a period |
| Schedule.RunIsChained | src/runner.rs:207-232 | every fire starts at or after its planned time and the fire before it completed, each tick follows from the last and is never before a completion, a fire already due is not jittered |
| Schedule.TickClosedForm | src/runner.rs:205-231 | after n fires the tick is the largest of `tick0 + n*I` and `completed_i + (n-1-i)*I` |
| Schedule.NoBurst | src/runner.rs:207-232 | no time window of width W holds more than W / I + 2 starts |
| Schedule.BurstBoundIsAttained | src/runner.rs:223-230 | for every interval and width some run reaches that number |
| Schedule.IntervalIsRegular | src/trigger.rs:54-56 | the next tick of an interval is the interval later, but at least 1 ms, so it is strictly later, monotone and never runs out |
| Schedule.CronIsRegular | src/trigger.rs:46-68 | a schedule that takes the first of a set of ticks, finite or not, is strictly later, monotone and runs out only past its last tick |
| Schedule.NeverEarly | src/trigger.rs:46-68 | fire k never starts before grid tick k, where the grid has one, nor before the fire before it completed, for every schedule, finite ones included |
| Schedule.MissedTicksCollapse | src/runner.rs:223-230 | all ticks missed during one run collapse into one immediate fire without jitter, for every schedule, finite ones included |
| Schedule.ExhaustedStillFires | src/runner.rs:392-400 | once a schedule has run out at a fire it stays so, and each further fire is due 60 s after the last completed, with no tick in between |
| Schedule.FiresWithoutTickIffRunOut | src/runner.rs:383-400 | a fire is due with no tick of the schedule since the one before it if and only if the schedule had none left there; otherwise it is due at the later of that tick and the completion |
| Schedule.OneTickFiresTwice | src/runner.rs:392-400 | a schedule with a single tick fires at it and again 60 s later |
| Schedule.GapWithinPeriod | src/runner.rs:208-210 | the wait never exceeds one period in any reachable state |
| Schedule.Capacity | src/runner.rs:208-231 | if window, delays and run fit into the period, every tick is on `tick0 + k*I` and every start within window plus latency, plus one clock reading if signals other than a shutdown interrupt the waits and one more for each that wins when the timer is due as well |
| Schedule.RunnerCapacity | src/trigger.rs:133-147 | the same for the runner's own source, with the policy's window of one period |
| Schedule.RunnerSchedule | src/runner.rs:205-231 | closed form, burst bound and gap bound for the runner's own source |
| Schedule.ZeroFractionIsJitterless | src/trigger.rs:107-109 | fraction zero disables jitter |
| Draws.GeneratorPosition | src/runner.rs:207-211 | after any turns the generator has advanced once for each turn with a non-empty window |
| Draws.TurnExactly | src/runner.rs:207-232 | a turn's jitter is zero for an empty window and else the next draw modulo the window; the fire is planned at tick plus jitter, wakes no earlier, and a signal leaves tick and fires |
| Seeding.EffectiveSeed | src/runner.rs:189-196 | the name hash can be recovered from seed and effective seed |
| Seeding.DrawsReproducedIffHashesAgree | src/supervisor.rs:191-194 | two runs with one seed agree in their n-th draw if and only if the name hashes agree, for every n |
| Seeding.DelaysReproducedIffHashesAgree | src/supervisor.rs:191-194 | a policy that jitters at all reproduces every delay if and only if the name hashes agree |
| Seeding.DelayDecidedIffNoChoice | src/runner.rs:185-197 | for one gap, the seed alone decides the delay if and only if only one delay is possible |
| Seeding.SeedFixesNothing | src/runner.rs:189-197 | for every seed, each delay is given by as many name hashes as there are seeds that give it |
| Seeding.RunsReproducedIffHashesAgree | src/supervisor.rs:191-194 | a seeded supervisor reproduces a worker's fires in all circumstances if and only if jitter is off or the name hashes agree |
| Seeding.SeededDelaysCanDiffer | src/runner.rs:189-197 | for every seed, hashes 0 and 1 give different delays at the default fraction |
| Runner.JobRunner.Fire | src/runner.rs:246-305 | field by field, a fire changes the runner as its event does, and the closure and the breaker see its invocation |
| Runner.JobRunner.Invoke | src/runner.rs:309-318 | only the closure and the breaker notice an invocation; the runner learns its outcome |
| Runner.JobRunner.Record | src/runner.rs:275-304 | what success, failure, pause and unwinding each change, with nothing fed to the breaker or called |
| Runner.JobRunner.RecordFailure | src/runner.rs:282-297 | counts, crosses the degraded edge at most once, records the message last |
| Runner.EdgeSurvivesWrap | src/runner.rs:287-290 | exactly one failure of a run crosses the edge, also when the 32-bit counter wraps |
| Runner.FiresMatchTrace | src/runner.rs:246-305 | after any attempts the whole state equals what the event sequence amounts to |
| Runner.OneHookPerDegradation | src/runner.rs:288-295 | the hook is called once per maximal failure run that reaches the budget |
| Runner.DegradedEdge | src/runner.rs:276-297 | degraded exactly while the trailing failure run is at least max(1, budget) long, with one hook call per such run and that failure's message |
| Runner.Conservation | src/runner.rs:246-305 | fires, skips and pauses account for every call, and fires for every closure call, if and only if no attempt that passes gate and breaker panics while building its future |
| Runner.EagerPanicIsUncounted | src/runner.rs:321-322 | a panic while the future is built is in no counter |
| Runner.SeenMatchesTrace | src/runner.rs:339-379 | the closure is called once per fire or crash, and the breaker judges each call that runs to its end by the slot the operation put its result in, which is what the runner records |
| Runner.BreakerSeesWhatIsRecorded | src/runner.rs:339-379 | the breaker is fed exactly the recorded successes and failures, in order, and a crash if it counts that, if and only if it counts every attempt it cuts off |
| Runner.BreakerIsToldTheTruth | src/runner.rs:331-352 | the breaker's records are what the jobs did: a success for each that returned, a failure for each that failed or panicked while polled, in order, whatever it makes of calls that give no result |
| Runner.OnlyThisOperationIsTransparent | src/runner.rs:331-351 | an operation makes an admitting breaker invisible if and only if it puts job errors and caught panics into the error slot with their messages |
| Runner.AdmittingBreakerIsTransparent | src/runner.rs:331-379 | a breaker that admits every call leaves all counters, messages and hook calls as without it, panics included |
| Runner.HeldOnlyGrows | src/runner.rs:256-266 | the leader flag never returns to false |
| Attempts.EventIs | src/runner.rs:252-304 | what an attempt comes to, from its own fields: skipped, refused, succeeded, crashed, or failed with the job's own message, the panic message or the unclassified one |
| Attempts.StateTellsAttempts | src/runner.rs:275-297 | after any attempts the last error is what the last failing job said, the hook was called with what the job said at each alarm, and the job is degraded while the streak of failures is at least max(1, budget) |
| Attempts.CountersTellAttempts | src/runner.rs:252-303 | fires, failures, skips and pauses count the attempts that ran, failed, were turned away at the gate and were refused |
| Attempts.EndsLoop | src/runner.rs:292-296 | an attempt ends the loop exactly if it panics while building its future or raises the alarm with a hook that panics |
| Worker.FiresPerTimer | src/runner.rs:207-232 | the loop stops exactly when a shutdown is seen and fires once per timer turn before that |
| Worker.RunWorker | src/runner.rs:179-241 | a loop that stops and is not unwound has fired once per timer turn, plus startup fire and drain pass, and its summary is what those attempts amount to, with fires, skips and pauses adding up to them; an unwound loop has no summary |
| Lease.TtlMsIsExact | src/leader/redis_lease.rs:47-49 | the millisecond argument is the largest that the duration covers, up to the 63-bit maximum |
| Lease.SetNxPx | src/leader/redis_lease.rs:54-64 | takes the key exactly if none is live and the expiry is positive; then the holder has it for the TTL, else nothing changes |
| Lease.CompareAndExpire | src/leader/redis_lease.rs:14-15 | extends exactly the caller's own live key, within its epoch; a zero expiry deletes it; on refusal nothing changes |
| Lease.RedisKey.Acquire | src/leader/redis_lease.rs:54-64 | true exactly if answered and taken; errors report false whether or not the command took effect; exactly when the answer tells who holds the key |
| Lease.RedisKey.Renew | src/leader/redis_lease.rs:66-74 | true exactly if answered and the key was the holder's |
| Lease.AcquireRefusesItsOwnKey | src/leader/mod.rs:22-24 | a holder whose key is live is refused its own key |
| Lease.AcquirePromise | src/leader/mod.rs:22-24 | `acquire` is true exactly if the holder then holds the lease, if and only if it did not hold it before and no successful command lost its answer |
| Lease.RenewPromise | src/leader/mod.rs:26-28 | the same for `renew`: if and only if the holder does not hold the lease, or it is extended and answered, or deleted by a zero expiry with the answer lost |
| LeaseSafety.Exclusion | src/runner.rs:250-267 | after an election no other holder is elected for the holder's shortest TTL, over every run |
| LeaseSafety.CommonTtlExclusion | src/leader/redis_lease.rs:54-74 | with one TTL elections of different holders are a TTL apart |
| LeaseSafety.RunKeepsRegistered | src/supervisor.rs:264-266 | registrations are constant and a TTL below one millisecond is never elected |
| LeaseSafety.OwnTtlExcludesIffSiblingsAgree | src/supervisor.rs:237-266 | every runner's own TTL excludes others in every run if and only if, where another holder with a positive TTL competes, runners sharing a holder agree on their positive TTLs |
| LeaseSafety.UndercutRun | src/runner.rs:256-261 | two runners of one holder with different TTLs let another holder in early |
| LeaseSafety.NoOverlap | src/runner.rs:246-305 | executions under different holders never overlap if each ends within the excluded time of its election |
| LeaseSafety.NoOverlapIffBoundsFit | src/runner.rs:246-305 | executions bounded by b(h) never overlap another holder's in any run if and only if, where holders compete, b(h) is at most the shortest positive TTL of h |
| LeaseSafety.OutrunRun | src/leader/redis_lease.rs:54-64 | a fire allowed to outlast its TTL overlaps one of another holder |
| LeaseLiveness.RunKeepsEpochal | src/runner.rs:256-266 | the leader flag is up exactly for runners that were elected, and each of them acquired once |
| LeaseLiveness.OneAcquisitionPerEpoch | src/leader/redis_lease.rs:54-74 | in each key epoch, however it began, one holder, at most one elected acquisition and it comes first; every runner elected in it acquired in it or in an earlier one, in an earlier one if another acquired in it |
| LeaseLiveness.NoStalledLeader | src/runner.rs:252-266 | a runner elected before is elected again exactly if an answered renewal finds its own key or an answered acquisition finds none, whatever others do in between; if not, it is ready for the next attempt |
| LeaseLiveness.RenewsFirst | src/runner.rs:256-266 | in every run, an action of a runner takes effect if and only if it may follow its last move: an attempt begins when the one before is over, a runner elected before renews first and acquires only after a failed renewal |
| LeaseLiveness.ElectionIsRecorded | src/runner.rs:256-266 | an election is recorded exactly for a winning renewal or acquisition, with runner, holder and server time |
| LeaseLiveness.ExecutionIsRecorded | src/runner.rs:269-275 | an execution is recorded with its election and the server times of its start and end |
| LeaseLiveness.KeyIsChangedByCommands | src/leader/redis_lease.rs:54-74 | the key changes by time and by commands that reach it, answered or not, and by nothing else |
| LeaseLiveness.FreshRunnerWaitsForTheKey | src/runner.rs:259-265 | a runner never elected is elected only when no key is live, not even its own supervisor's |
| Gate.GateMatchesLease | src/runner.rs:250-267 | in every lease run the leader flag of a runner's fires is the protocol's, and as many fires pass the gate as the runner was elected |
| Identity.ParseUndoesDecimal | src/supervisor.rs:34-36 | decimal printing is injective |
| Identity.HolderIsScrambledClock | src/supervisor.rs:34-36 | the holder string is `worker-kit-` and in decimal the scramble of the nanoseconds since the epoch modulo 2^64 |
| Identity.HolderIdsDiffer | src/supervisor.rs:34-36 | two holder strings agree if and only if the clock readings in nanoseconds agree modulo 2^64, readings before the epoch counting as zero |
| Identity.SupervisorsExclude | src/trigger.rs:174-194 | elections of supervisors whose clock readings differ modulo 2^64 ns are a TTL apart |
| Snapshot.WritesAmountToEvent | src/runner.rs:275-303 | the separate stores of a fire add up to its event |
| Snapshot.MemoryMatchesEvents | src/runner.rs:275-303 | in every interleaving the memory with its pending stores is what the recorded events amount to |
| Snapshot.FinalSummaryIsExact | src/runner.rs:240 | the summary a loop takes after its last fire is exactly what its events amount to |
| Snapshot.RunIsTruthful | src/runner.rs:121-146 | every reported field is the memory's at its load, all loads lie within the snapshot's window and in field order, in every interleaving |
| Snapshot.ReadIsRecorded | src/runner.rs:134-145 | a snapshot is opened, loads each field and is closed at the recorded moments |
| Snapshot.LaterSnapshotsDominate | src/supervisor.rs:279-283 | a later snapshot is at least an earlier one in fires, failures, skips and paused |
| Snapshot.SnapshotBelowMemory | src/runner.rs:121-146 | no snapshot is above the counters at any later moment |
| Snapshot.QuietSnapshotIsExact | src/runner.rs:121-131 | a snapshot with no store in its window is exact |
| Snapshot.SnapshotsCanTear | src/runner.rs:134-145 | a snapshot can show a failure without its fire |
| Snapshot.TornExactly | src/runner.rs:134-145 | a snapshot shows more failures than fires if and only if more failures were stored between the two loads than fires was ahead; never more than there were fires at the second load, and never with no failure stored in its window |
| Degraded.FlagFollowsCounter | src/runner.rs:279-290 | in every interleaving the degraded flag in memory agrees with the failure counter, but for the moment between the two stores |
| Report.NameLeIsLexicographic | src/supervisor.rs:354 | names are compared lexicographically: a prefix, or smaller at the first difference |
| Report.SortIsStable | src/supervisor.rs:354 | the sort by name is in ascending lexicographic order and keeps the order of equal names, losing nothing |
| Report.StableSortIsUnique | src/supervisor.rs:352-354 | there is exactly one sorted stable arrangement |
| Report.DrainAndReport | src/supervisor.rs:330-355 | one entry per registered runner: what its loop returned, else its live counters; by name, and in registration order under one name |
| Report.ReportIgnoresCompletionOrder | src/supervisor.rs:332-355 | the same joins in any order give the same report |
| Report.EntryIsHonest | src/supervisor.rs:325-350 | runner i's entry has its name, is what its events amount to if its loop returned or failed, and lies between every earlier snapshot and its counters at every later moment |
| Report.ReportIsHonest | src/supervisor.rs:312-356 | exactly one entry per registered runner under its own name, duplicates included, in ascending lexicographic order and registration-stable; field by field exact for ended loops, never above the final counters for abandoned ones |
| Pressure.ParseSome | src/pressure.rs:110-135 | the loop over lines agrees with the recursive reading of the file |
| Pressure.ParseFields | src/pressure.rs:114-131 | the loop over fields with early returns agrees with the recursive reading of the line |
| Pressure.FirstSomeLineDecides | src/pressure.rs:111-113 | the first line that trims to a `some ` prefix decides, whatever surrounds it |
| Pressure.FieldsExactly | src/pressure.rs:114-131 | a field without `=` or with a bad number spoils the line; else the last number under each name counts and all three are needed |
| Pressure.LineEnds | src/pressure.rs:111 | a line ends at a line feed with one carriage return before it; the last line needs none and is kept as it is |
| Pressure.TrimIsExact | src/pressure.rs:112 | trimming takes away exactly the surrounding white space |
| Pressure.SplitUndoesJoin | src/pressure.rs:117 | splitting at white space gives the joined tokens back |
| Pressure.LinesOfText | src/pressure.rs:111 | splitting a text into lines gives the written lines back |
| Pressure.RenderedFileParsesBack | src/pressure.rs:110-135 | rendered fields in any order with extras parse back to the last value of each average, and to nothing if one is missing |

## Left out

- Key server: networking, reconnects and failover with lagging replicas; the model has one linearizable key that lives exactly its expiry.
- Breaker, cron, chrono and shutdown-kit internals: the breaker refuses, runs or cuts off a call, and may or may not count a call that gives it no result as a failure; a cron trigger is any next-tick function; a shutdown signal may win any turn.
- The async runtime and the conversion from wall clock to monotonic instants: one clock that never runs backwards, wake-up never before the planned time.
- Schedule.RunLoop: leaves out `fire_at_start` and `drain_pass`, which `Worker.RunWorker` has; the time a startup fire takes is the clock reading the loop is entered with.
- Jitter.Window: multiplies exactly and rounds half up, where the source multiplies floating-point seconds; a negative or NaN fraction, which the constructor rules out, is not modelled.
- Schedule.Capacity: bounds how many changes other than a shutdown may win a wait although the timer is due; without a bound they postpone the fire without limit.
- Runner: a debug build panics where the 32-bit failure counter overflows; the model wraps, as release builds do.
- Snapshot: stores and loads take effect in one order common to all threads, while the source makes them `Relaxed` and disclaims invariants across variables; what a reader on another thread may additionally see is not modelled. `Snapshot.TornExactly` and `Snapshot.LaterSnapshotsDominate` rely on that order.
- Degraded.FlagFollowsCounter: holds before 2^32 stores, when the 32-bit failure counter cannot have wrapped.
- Snapshot.TornExactly: holds before 2^64 stores, when no 64-bit counter has wrapped.
- Snapshot.LaterSnapshotsDominate: holds before 2^64 stores, when no 64-bit counter has wrapped.
- Clock overflow: times are unbounded; adding a duration to a time never overflows.
- Report.DrainAndReport: the library sort is modelled by a function on sequences, not in place.
- MemoryLease: returns true always; it appears as lease replies that are always true.
- Name validation, registration errors, builder setters, breaker metrics accessors, `status` sorting, reading and watching the pressure file: only easy members.
