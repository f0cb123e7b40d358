/** The holder string of a supervisor (src/supervisor.rs): a scrambled clock reading in decimal. */
module Identity {
  import opened Words
  import opened Rng
  import Lease
  import LeaseSafety

  /** The clock as a seed: nanoseconds since the Unix epoch truncated to 64 bits, zero before it. */
  function ClockNanos(nanos: int): Word { if nanos < 0 then 0 else nanos % WORD }

  function ClockSeed(nanos: int): Word { Mix64(ClockNanos(nanos)) }

  function Digit(d: nat): char
    requires d < 10
  {
    "0123456789"[d]
  }

  /** Decimal notation without leading zeros. */
  function Decimal(n: nat): string {
    if n < 10 then [Digit(n)] else Decimal(n / 10) + [Digit(n % 10)]
  }

  function DigitValue(c: char): nat { if '0' <= c <= '9' then (c as int) - ('0' as int) else 0 }

  function Parse(s: string): nat {
    if s == [] then 0 else 10 * Parse(s[..|s| - 1]) + DigitValue(s[|s| - 1])
  }

  /** Reading a printed number gives the number back. */
  lemma {:induction false} ParseUndoesDecimal(n: nat)
    ensures Parse(Decimal(n)) == n
  {
    if n < 10 {
      assert Decimal(n)[..0] == [];
    } else {
      ParseUndoesDecimal(n / 10);
      var s := Decimal(n);
      assert s[..|s| - 1] == Decimal(n / 10);
    }
    DigitRoundTrip(n % 10);
  }

  lemma DigitRoundTrip(d: nat)
    requires d < 10
    ensures DigitValue(Digit(d)) == d
  {
  }

  const PREFIX := "worker-kit-"

  function HolderId(nanos: int): string { PREFIX + Decimal(ClockSeed(nanos)) }

  /** What of a clock reading counts: a reading before the epoch is taken as the epoch. */
  function SinceEpoch(nanos: int): nat { if nanos < 0 then 0 else nanos }

  lemma PrefixThenNumber(n: nat)
    ensures var s := PREFIX + Decimal(n); s[..11] == "worker-kit-" && Parse(s[11..]) == n
  {
    var s := PREFIX + Decimal(n);
    assert s[11..] == Decimal(n);
    ParseUndoesDecimal(n);
  }

  lemma ClockIsSinceEpoch(nanos: int)
    ensures ClockNanos(nanos) == SinceEpoch(nanos) % WORD
  {
  }

  /** The holder string is a fixed prefix and, in decimal, the scramble of the nanoseconds since the
      epoch modulo 2^64. */
  lemma HolderIsScrambledClock(nanos: int)
    ensures HolderId(nanos)[..11] == "worker-kit-"
    ensures Parse(HolderId(nanos)[11..]) == Mix64(SinceEpoch(nanos) % WORD)
  {
    ClockIsSinceEpoch(nanos);
    PrefixThenNumber(ClockSeed(nanos));
  }

  /** The two readings agree modulo 2^64 nanoseconds, where readings before the epoch count as zero. */
  ghost predicate Coincide(a: int, b: int) { (SinceEpoch(a) - SinceEpoch(b)) % WORD == 0 }

  lemma ClocksAgree(a: int, b: int)
    ensures ClockNanos(a) == ClockNanos(b) <==> Coincide(a, b)
  {
    ModEqual(SinceEpoch(a), SinceEpoch(b));
  }

  lemma SameHolderSameClock(a: int, b: int)
    ensures HolderId(a) == HolderId(b) <==> ClockNanos(a) == ClockNanos(b)
  {
    if HolderId(a) == HolderId(b) {
      assert HolderId(a)[|PREFIX|..] == Decimal(ClockSeed(a));
      assert HolderId(b)[|PREFIX|..] == Decimal(ClockSeed(b));
      ParseUndoesDecimal(ClockSeed(a));
      ParseUndoesDecimal(ClockSeed(b));
      MixIsInjective(ClockNanos(a), ClockNanos(b));
    }
  }

  /** Two supervisors get the same holder string if and only if their clock readings agree modulo
      2^64 nanoseconds: scrambling and printing lose nothing. */
  lemma HolderIdsDiffer(a: int, b: int)
    ensures HolderId(a) == HolderId(b) <==> Coincide(a, b)
  {
    SameHolderSameClock(a, b);
    ClocksAgree(a, b);
  }

  /** Lease exclusion between supervisors, not strings: `clock` gives each runner's supervisor's clock
      reading at construction. With one TTL, elections of supervisors whose readings differ modulo
      2^64 are a TTL apart. */
  lemma SupervisorsExclude(w: Lease.World, clock: nat -> int, run: seq<Lease.Action>, ttl: nat, i: nat, j: nat)
    requires Lease.Initial(w)
    requires forall r :: 0 <= r < |w.runners| ==> w.runners[r].ttl == ttl && w.runners[r].holder == HolderId(clock(r))
    requires i < j < |Lease.Run(w, run).elections|
    ensures var es := Lease.Run(w, run).elections;
      !Coincide(clock(es[i].runner), clock(es[j].runner)) ==> es[i].time + ttl <= es[j].time
  {
    var es := Lease.Run(w, run).elections;
    LeaseSafety.RunKeepsRegistered(w, run);
    assert LeaseSafety.RegisteredElection(es[i], w.runners) && LeaseSafety.RegisteredElection(es[j], w.runners);
    HolderIdsDiffer(clock(es[i].runner), clock(es[j].runner));
    LeaseSafety.CommonTtlExclusion(w, run, ttl, i, j);
  }
}
