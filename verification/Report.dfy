/** Drain and report (src/supervisor.rs): loops are joined in any order, some fail, some are cut off
    at the drain cap; what is missing is filled in from live counters, and the list is sorted by name. */
module Report {
  import opened Options
  import opened Words
  import Runner
  import Snapshot

  // ---- the order of names

  /** Lexicographic order of strings. */
  predicate NameLe(a: string, b: string) {
    a == [] || (b != [] && (a[0] < b[0] || (a[0] == b[0] && NameLe(a[1..], b[1..]))))
  }

  lemma {:induction false} NameLeTotal(a: string, b: string)
    ensures NameLe(a, b) || NameLe(b, a)
    decreases |a|
  {
    if a != [] && b != [] { NameLeTotal(a[1..], b[1..]); }
  }

  lemma {:induction false} NameLeAntisymmetric(a: string, b: string)
    requires NameLe(a, b) && NameLe(b, a)
    ensures a == b
    decreases |a|
  {
    if a != [] {
      NameLeAntisymmetric(a[1..], b[1..]);
      assert a == [a[0]] + a[1..] && b == [b[0]] + b[1..];
    }
  }

  lemma {:induction false} NameLeTransitive(a: string, b: string, c: string)
    requires NameLe(a, b) && NameLe(b, c)
    ensures NameLe(a, c)
    decreases |a|
  {
    if a != [] && a[0] == b[0] == c[0] { NameLeTransitive(a[1..], b[1..], c[1..]); }
  }

  /** Lexicographic order, spelled out: a prefix, or smaller at the first difference. */
  ghost predicate Precedes(a: string, b: string) { a <= b || exists i :: DiffersAt(a, b, i) }

  ghost predicate DiffersAt(a: string, b: string, i: int) {
    0 <= i < |a| && i < |b| && a[..i] == b[..i] && a[i] < b[i]
  }

  lemma {:induction false} NameLeIsLexicographic(a: string, b: string)
    ensures NameLe(a, b) <==> Precedes(a, b)
    decreases |a|
  {
    if a != [] && b != [] {
      if a[0] == b[0] {
        NameLeIsLexicographic(a[1..], b[1..]);
        SameHead(a, b);
      } else if a[0] < b[0] {
        assert DiffersAt(a, b, 0);
      } else {
        forall i | 0 < i <= |a| && i <= |b| ensures a[..i] != b[..i] { assert a[..i][0] != b[..i][0]; }
      }
    }
  }

  lemma SameHead(a: string, b: string)
    requires a != [] && b != [] && a[0] == b[0]
    ensures Precedes(a, b) <==> Precedes(a[1..], b[1..])
  {
    assert a == [a[0]] + a[1..] && b == [b[0]] + b[1..];
    forall i | 0 < i < |a| && i < |b| ensures DiffersAt(a, b, i) <==> DiffersAt(a[1..], b[1..], i - 1) {
      assert a[..i] == [a[0]] + a[1..][..i - 1] && b[..i] == [b[0]] + b[1..][..i - 1];
      assert a[1..][..i - 1] == a[..i][1..] && b[1..][..i - 1] == b[..i][1..];
    }
    if i :| DiffersAt(a[1..], b[1..], i) { assert DiffersAt(a, b, i + 1); }
    if i :| DiffersAt(a, b, i) { assert DiffersAt(a[1..], b[1..], i - 1); }
  }

  // ---- the stable sort

  /** Each element's name is at most every later one's. */
  ghost predicate Sorted<T>(s: seq<T>, name: T -> string) {
    forall i, j :: 0 <= i < j < |s| ==> NameLe(name(s[i]), name(s[j]))
  }

  /** The elements with a given name, in order. */
  function Named<T>(s: seq<T>, name: T -> string, n: string): seq<T> {
    if s == [] then [] else (if name(s[0]) == n then [s[0]] else []) + Named(s[1..], name, n)
  }

  /** Places `x` before the first element that is not smaller. */
  function Put<T>(x: T, s: seq<T>, name: T -> string): seq<T> {
    if s == [] || NameLe(name(x), name(s[0])) then [x] + s else [s[0]] + Put(x, s[1..], name)
  }

  function SortByName<T>(s: seq<T>, name: T -> string): seq<T> {
    if s == [] then [] else Put(s[0], SortByName(s[1..], name), name)
  }

  lemma {:induction false} PutNamed<T>(x: T, s: seq<T>, name: T -> string, n: string)
    ensures Named(Put(x, s, name), name, n) == (if name(x) == n then [x] else []) + Named(s, name, n)
    ensures |Put(x, s, name)| == |s| + 1
  {
    if s == [] || NameLe(name(x), name(s[0])) {
      NamedCons(x, s, name, n);
    } else {
      var rest := Put(x, s[1..], name);
      PutNamed(x, s[1..], name, n);
      NamedCons(s[0], rest, name, n);
      assert name(s[0]) != name(x) by { NameLeTotal(name(x), name(x)); }
    }
  }

  lemma NamedCons<T>(x: T, s: seq<T>, name: T -> string, n: string)
    ensures Named([x] + s, name, n) == (if name(x) == n then [x] else []) + Named(s, name, n)
  {
  }

  /** A name below all given ones stays below all of them. */
  lemma {:induction false} PutAbove<T>(x: T, s: seq<T>, name: T -> string, low: string)
    requires NameLe(low, name(x)) && forall i :: 0 <= i < |s| ==> NameLe(low, name(s[i]))
    ensures forall i :: 0 <= i < |Put(x, s, name)| ==> NameLe(low, name(Put(x, s, name)[i]))
  {
    if s != [] && !NameLe(name(x), name(s[0])) { PutAbove(x, s[1..], name, low); }
  }

  lemma {:induction false} PutSorted<T>(x: T, s: seq<T>, name: T -> string)
    requires Sorted(s, name)
    ensures Sorted(Put(x, s, name), name)
  {
    if s == [] {
    } else if NameLe(name(x), name(s[0])) {
      forall j | 0 <= j < |s| ensures NameLe(name(x), name(s[j])) {
        if j > 0 { NameLeTransitive(name(x), name(s[0]), name(s[j])); }
      }
    } else {
      PutSorted(x, s[1..], name);
      NameLeTotal(name(x), name(s[0]));
      PutAbove(x, s[1..], name, name(s[0]));
    }
  }

  /** The result is sorted by name and, name by name, the original sequence: a stable permutation. */
  lemma {:induction false} SortIsStable<T>(s: seq<T>, name: T -> string, n: string)
    ensures Sorted(SortByName(s, name), name) && InOrder(SortByName(s, name), name)
    ensures Named(SortByName(s, name), name, n) == Named(s, name, n)
    ensures |SortByName(s, name)| == |s|
  {
    if s != [] {
      SortIsStable(s[1..], name, n);
      PutSorted(s[0], SortByName(s[1..], name), name);
      PutNamed(s[0], SortByName(s[1..], name), name, n);
    }
    SortedIsInOrder(SortByName(s, name), name);
  }

  /** The names are in lexicographic order. */
  ghost predicate InOrder<T>(s: seq<T>, name: T -> string) {
    forall i, j :: 0 <= i < j < |s| ==> Precedes(name(s[i]), name(s[j]))
  }

  lemma SortedIsInOrder<T>(s: seq<T>, name: T -> string)
    requires Sorted(s, name)
    ensures InOrder(s, name)
  {
    forall i, j | 0 <= i < j < |s| ensures Precedes(name(s[i]), name(s[j])) {
      NameLeIsLexicographic(name(s[i]), name(s[j]));
    }
  }

  /** `t` is what a stable sort by name must make of `s`. */
  ghost predicate IsStableSort<T>(s: seq<T>, t: seq<T>, name: T -> string) {
    Sorted(t, name) && forall n :: Named(t, name, n) == Named(s, name, n)
  }

  lemma {:induction false} NamedMember<T>(s: seq<T>, name: T -> string, n: string)
    ensures Named(s, name, n) != [] <==> exists x :: x in s && name(x) == n
    ensures forall x :: x in Named(s, name, n) ==> x in s && name(x) == n
  {
    if s != [] {
      NamedMember(s[1..], name, n);
      assert forall x :: x in s <==> x == s[0] || x in s[1..];
    }
  }

  /** Sortedness and stability leave no choice: there is exactly one such sequence. */
  lemma {:induction false} StableSortIsUnique<T>(s: seq<T>, t: seq<T>, name: T -> string)
    requires Sorted(s, name) && Sorted(t, name)
    requires forall n :: Named(s, name, n) == Named(t, name, n)
    ensures s == t
    decreases |s|
  {
    if s == [] {
      assert t != [] ==> Named(t, name, name(t[0])) == Named(s, name, name(t[0]));
    } else {
      NamedMember(t, name, name(s[0]));
      assert Named(t, name, name(s[0])) == Named(s, name, name(s[0])) != [];
      HeadsAgree(s, t, name);
      forall n ensures Named(s[1..], name, n) == Named(t[1..], name, n) {
        assert Named(s, name, n) == Named(t, name, n);
        var head := if name(s[0]) == n then [s[0]] else [];
        assert Named(s, name, n) == head + Named(s[1..], name, n);
        assert Named(t, name, n) == head + Named(t[1..], name, n);
        assert head + Named(s[1..], name, n) == head + Named(t[1..], name, n);
        SameTail(head, Named(s[1..], name, n), Named(t[1..], name, n));
      }
      StableSortIsUnique(s[1..], t[1..], name);
      assert s == [s[0]] + s[1..] && t == [t[0]] + t[1..];
    }
  }

  lemma SameTail<T>(head: seq<T>, a: seq<T>, b: seq<T>)
    requires head + a == head + b
    ensures a == b
  {
    assert a == (head + a)[|head|..] && b == (head + b)[|head|..];
  }

  lemma HeadsAgree<T>(s: seq<T>, t: seq<T>, name: T -> string)
    requires s != [] && t != [] && Sorted(s, name) && Sorted(t, name)
    requires forall n :: Named(s, name, n) == Named(t, name, n)
    ensures s[0] == t[0]
  {
    HeadIsLeast(s, t, name);
    HeadIsLeast(t, s, name);
    NameLeAntisymmetric(name(s[0]), name(t[0]));
    assert Named(s, name, name(s[0]))[0] == s[0] && Named(t, name, name(s[0]))[0] == t[0];
  }

  lemma HeadIsLeast<T>(s: seq<T>, t: seq<T>, name: T -> string)
    requires s != [] && t != [] && Sorted(t, name)
    requires Named(s, name, name(s[0])) == Named(t, name, name(s[0]))
    ensures NameLe(name(t[0]), name(s[0]))
  {
    NamedMember(t, name, name(s[0]));
    var x :| x in t && name(x) == name(s[0]);
    var i :| 0 <= i < |t| && t[i] == x;
    NameLeTotal(name(t[0]), name(t[0]));
  }

  // ---- collecting the summaries

  /** One job's totals at the end. */
  datatype Summary = Summary(name: string, fires: Word, failures: Word, skips: Word, paused: Word,
                             degraded: bool, lastError: Option<string>)

  /** What the drain gets from a joined loop, before the cap: its index and summary, or an error, which
      does not say whose it is: that index is for the specification only. */
  datatype Join = Returned(index: nat, summary: Summary) | Failed(index: nat)

  /** A loop is joined at most once, and only loops that were spawned are joined. */
  ghost predicate JoinsOf(joins: seq<Join>, runners: nat) {
    && (forall k :: 0 <= k < |joins| ==> joins[k].index < runners)
    && (forall k, l :: 0 <= k < l < |joins| ==> joins[k].index != joins[l].index)
  }

  /** Runner i's entry: what its loop returned, else what its live counters say at the report. */
  ghost predicate IsEntry(joins: seq<Join>, live: seq<Summary>, i: nat, entry: Summary)
    requires i < |live|
  {
    if exists k :: 0 <= k < |joins| && joins[k].Returned? && joins[k].index == i
    then Returned(i, entry) in joins
    else entry == live[i]
  }

  ghost predicate AreEntries(joins: seq<Join>, live: seq<Summary>, entries: seq<Summary>) {
    |entries| == |live| && forall i :: 0 <= i < |live| ==> IsEntry(joins, live, i, entries[i])
  }

  function NameOf(s: Summary): string { s.name }

  /** The tail of `run`: fill the slots in join order, fill the gaps, flatten, sort. `live[i]` is what
      runner i's live counters say when its gap is filled. Position p of the report holds the entry of
      runner `order[p]`. */
  method DrainAndReport(joins: seq<Join>, live: seq<Summary>)
    returns (report: seq<Summary>, ghost entries: seq<Summary>, ghost order: seq<nat>)
    ensures AreEntries(joins, live, entries)
    ensures IsOrder(entries, order) && report == Pick(entries, order)
    ensures IsStableSort(entries, report, NameOf) && InOrder(report, NameOf)
    ensures |report| == |live|
  {
    var slots := new Option<Summary>[|live|](_ => None);
    var k := 0;
    while k < |joins|
      invariant 0 <= k <= |joins|
      invariant forall i :: 0 <= i < |live| ==> SlotHolds(joins[..k], i, slots[i])
    {
      assert joins[..k + 1] == joins[..k] + [joins[k]];
      ghost var before := slots[..];
      if joins[k].Returned? && joins[k].index < slots.Length {
        slots[joins[k].index] := Some(joins[k].summary);
      }
      forall i | 0 <= i < |live| ensures SlotHolds(joins[..k + 1], i, slots[i]) {
        SlotStep(joins, k, i, before[i]);
      }
      k := k + 1;
    }
    assert joins[..k] == joins;
    var perJob: seq<Summary> := [];
    var i := 0;
    while i < |live|
      invariant 0 <= i <= |live| && |perJob| == i
      invariant forall j :: 0 <= j < i ==> IsEntry(joins, live, j, perJob[j])
    {
      var entry := match slots[i] case Some(s) => s case None => live[i];
      assert SlotHolds(joins, i, slots[i]);
      perJob := perJob + [entry];
      i := i + 1;
    }
    entries := perJob;
    report := SortByName(perJob, NameOf);
    forall n: string ensures Named(report, NameOf, n) == Named(entries, NameOf, n) { SortIsStable(perJob, NameOf, n); }
    SortIsStable(perJob, NameOf, "");
    order := SortByName<nat>(Range(0, |entries|), Key(entries));
    SortsByIndex(entries, 0);
    assert entries[0..] == entries;
  }

  /** A slot holds what the joins so far returned for its index. */
  ghost predicate SlotHolds(joins: seq<Join>, i: nat, slot: Option<Summary>) {
    if exists k :: 0 <= k < |joins| && joins[k].Returned? && joins[k].index == i
    then slot.Some? && Returned(i, slot.value) in joins
    else slot.None?
  }

  lemma SlotStep(joins: seq<Join>, k: nat, i: nat, slot: Option<Summary>)
    requires k < |joins| && SlotHolds(joins[..k], i, slot)
    ensures SlotHolds(joins[..k + 1], i, if joins[k].Returned? && joins[k].index == i then Some(joins[k].summary) else slot)
  {
  }

  // ---- which runner stands where

  /** Runner i stands before runner j: by name, and runners of one name in registration order. */
  ghost predicate Before(entries: seq<Summary>, i: nat, j: nat)
    requires i < |entries| && j < |entries|
  {
    NameLe(entries[i].name, entries[j].name) && (entries[i].name == entries[j].name ==> i < j)
  }

  ghost predicate Indices(order: seq<nat>, lo: nat, hi: nat) {
    && |order| == hi - lo && (forall p :: 0 <= p < |order| ==> lo <= order[p] < hi)
    && (forall i :: lo <= i < hi ==> i in order)
  }

  ghost predicate Ordered(entries: seq<Summary>, order: seq<nat>)
    requires forall p :: 0 <= p < |order| ==> order[p] < |entries|
  {
    forall p, q :: 0 <= p < q < |order| ==> Before(entries, order[p], order[q])
  }

  /** Every runner has one position, and the positions are in order. */
  ghost predicate IsOrder(entries: seq<Summary>, order: seq<nat>) {
    Indices(order, 0, |entries|) && Ordered(entries, order)
  }

  /** The entries at the given indices. */
  function Pick(entries: seq<Summary>, order: seq<nat>): seq<Summary>
    requires forall p :: 0 <= p < |order| ==> order[p] < |entries|
  {
    seq(|order|, p requires 0 <= p < |order| => entries[order[p]])
  }

  /** The name at an index. */
  function Key(entries: seq<Summary>): nat -> string {
    (i: nat) => if i < |entries| then entries[i].name else ""
  }

  function Range(lo: nat, hi: nat): seq<nat>
    requires lo <= hi
    decreases hi - lo
  {
    if lo == hi then [] else [lo] + Range(lo + 1, hi)
  }

  lemma {:induction false} PutMembers(x: nat, s: seq<nat>, name: nat -> string)
    ensures var r := Put<nat>(x, s, name); |r| == |s| + 1 && forall i :: i in r <==> i == x || i in s
  {
    if s != [] && !NameLe(name(x), name(s[0])) {
      PutMembers(x, s[1..], name);
      assert s == [s[0]] + s[1..];
    }
  }

  lemma PutInRange(x: nat, s: seq<nat>, name: nat -> string, hi: nat)
    requires x < hi && Indices(s, x + 1, hi)
    ensures Indices(Put<nat>(x, s, name), x, hi)
  {
    PutMembers(x, s, name);
    var r := Put<nat>(x, s, name);
    forall p | 0 <= p < |r| ensures x <= r[p] < hi { assert r[p] in r; }
  }

  /** An index goes before all greater ones of its name. */
  lemma {:induction false} PutOrdered(entries: seq<Summary>, x: nat, s: seq<nat>)
    requires x < |entries| && (forall p :: 0 <= p < |s| ==> x < s[p] < |entries|) && Ordered(entries, s)
    ensures var r := Put<nat>(x, s, Key(entries));
      (forall p :: 0 <= p < |r| ==> r[p] < |entries|) && Ordered(entries, r)
  {
    if s == [] {
    } else if NameLe(entries[x].name, entries[s[0]].name) {
      forall q | 0 <= q < |s| ensures Before(entries, x, s[q]) {
        if q > 0 {
          assert Before(entries, s[0], s[q]);
          NameLeTransitive(entries[x].name, entries[s[0]].name, entries[s[q]].name);
        }
      }
    } else {
      PutOrdered(entries, x, s[1..]);
      var rest := Put<nat>(x, s[1..], Key(entries));
      NameLeTotal(entries[x].name, entries[s[0]].name);
      NameLeTotal(entries[x].name, entries[x].name);
      PutMembers(x, s[1..], Key(entries));
      forall q | 0 <= q < |rest| ensures Before(entries, s[0], rest[q]) {
        assert rest[q] in rest;
        if rest[q] != x {
          var p :| 0 <= p < |s[1..]| && s[1..][p] == rest[q];
          assert Before(entries, s[0], s[p + 1]);
        }
      }
    }
  }

  lemma PickCons(entries: seq<Summary>, x: nat, s: seq<nat>)
    requires x < |entries| && forall p :: 0 <= p < |s| ==> s[p] < |entries|
    ensures Pick(entries, [x] + s) == [entries[x]] + Pick(entries, s)
  {
  }

  /** Placing an index places its entry. */
  lemma {:induction false} PutPicks(entries: seq<Summary>, x: nat, s: seq<nat>)
    requires x < |entries| && forall p :: 0 <= p < |s| ==> s[p] < |entries|
    ensures var r := Put<nat>(x, s, Key(entries));
      (forall p :: 0 <= p < |r| ==> r[p] < |entries|) && Pick(entries, r) == Put(entries[x], Pick(entries, s), NameOf)
  {
    if s == [] || NameLe(entries[x].name, entries[s[0]].name) {
      PickCons(entries, x, s);
    } else {
      PutPicks(entries, x, s[1..]);
      PickCons(entries, s[0], Put<nat>(x, s[1..], Key(entries)));
      PickCons(entries, s[0], s[1..]);
      assert s == [s[0]] + s[1..];
      assert Pick(entries, s)[1..] == Pick(entries, s[1..]);
    }
  }

  /** Sorting the entries from `k` on is sorting their indices. */
  lemma {:induction false} SortsByIndex(entries: seq<Summary>, k: nat)
    requires k <= |entries|
    ensures var order := SortByName<nat>(Range(k, |entries|), Key(entries));
      && Indices(order, k, |entries|) && Ordered(entries, order)
      && Pick(entries, order) == SortByName(entries[k..], NameOf)
    decreases |entries| - k
  {
    if k < |entries| {
      var rest := SortByName<nat>(Range(k + 1, |entries|), Key(entries));
      SortsByIndex(entries, k + 1);
      assert Range(k, |entries|)[1..] == Range(k + 1, |entries|);
      assert SortByName<nat>(Range(k, |entries|), Key(entries)) == Put<nat>(k, rest, Key(entries));
      PutInRange(k, rest, Key(entries), |entries|);
      PutOrdered(entries, k, rest);
      PutPicks(entries, k, rest);
      assert entries[k..][1..] == entries[k + 1..];
      assert SortByName(entries[k..], NameOf) == Put(entries[k], SortByName(entries[k + 1..], NameOf), NameOf);
    }
  }

  // ---- the report does not depend on the order of completion

  lemma EntriesAreUnique(joins: seq<Join>, other: seq<Join>, live: seq<Summary>, entries: seq<Summary>, entries': seq<Summary>)
    requires JoinsOf(joins, |live|) && multiset(joins) == multiset(other)
    requires AreEntries(joins, live, entries) && AreEntries(other, live, entries')
    ensures entries == entries'
  {
    forall j: Join ensures j in joins <==> j in other { assert j in multiset(joins) <==> j in multiset(other); }
    forall i | 0 <= i < |live| ensures entries[i] == entries'[i] {
      assert IsEntry(joins, live, i, entries[i]) && IsEntry(other, live, i, entries'[i]);
      if k :| 0 <= k < |joins| && joins[k].Returned? && joins[k].index == i {
        assert joins[k] in other;
        assert Returned(i, entries[i]) in joins && Returned(i, entries'[i]) in joins;
        SameJoin(joins, |live|, i, entries[i], entries'[i]);
      } else {
        forall l | 0 <= l < |other| && other[l].Returned? ensures other[l].index != i { assert other[l] in joins; }
      }
    }
  }

  lemma SameJoin(joins: seq<Join>, runners: nat, i: nat, a: Summary, b: Summary)
    requires JoinsOf(joins, runners) && Returned(i, a) in joins && Returned(i, b) in joins
    ensures a == b
  {
  }

  /** Whatever the order in which the loops finish, the report is the same. */
  lemma ReportIgnoresCompletionOrder(
      joins: seq<Join>, other: seq<Join>, live: seq<Summary>,
      entries: seq<Summary>, entries': seq<Summary>, report: seq<Summary>, report': seq<Summary>)
    requires JoinsOf(joins, |live|) && multiset(joins) == multiset(other)
    requires AreEntries(joins, live, entries) && AreEntries(other, live, entries')
    requires IsStableSort(entries, report, NameOf) && IsStableSort(entries', report', NameOf)
    ensures report == report'
  {
    EntriesAreUnique(joins, other, live, entries, entries');
    StableSortIsUnique(report, report', NameOf);
  }

  // ---- what the report says about each runner

  /** A registered runner and the whole life of its counters: its loop's stores and all snapshots taken
      of it, by `status`, by its own loop at its end, or by the report. */
  datatype Job = Job(name: string, spec: Runner.Spec, readers: nat, life: seq<Snapshot.Action>) {
    function History(): (w: Snapshot.World)
      ensures |w.log| > 0
    {
      Snapshot.Run(spec, readers, life)
    }
  }

  function SummaryOf(name: string, c: Snapshot.Counters): Summary {
    Summary(name, c.fires, c.failures, c.skips, c.paused, c.degraded, c.lastError)
  }

  /** `s` is snapshot k of the job, under the job's name. */
  ghost predicate TakenAs(job: Job, k: nat, s: Summary) {
    k < |job.History().shots| && s == SummaryOf(job.name, job.History().shots[k].got)
  }

  /** Snapshot k was opened when the loop had made its last store. */
  ghost predicate AfterLoop(job: Job, k: nat) {
    var w := job.History();
    k < |w.shots| && w.todo == [] && w.shots[k].begin == |w.log| - 1
  }

  ghost predicate Snapped(job: Job, s: Summary) {
    exists k: nat :: TakenAs(job, k, s)
  }

  ghost predicate SnappedAfterLoop(job: Job, s: Summary) {
    exists k: nat :: TakenAs(job, k, s) && AfterLoop(job, k)
  }

  /** What the drain is given comes from the registered runners: a loop returns its summary after its
      last store; the live counters of a loop that failed are read after its last store; those of a loop
      cut off at the cap are read at any moment, also between two stores of one fire. */
  ghost predicate FromLoops(jobs: seq<Job>, joins: seq<Join>, live: seq<Summary>) {
    && |live| == |jobs| && JoinsOf(joins, |jobs|)
    && (forall i :: 0 <= i < |jobs| ==> Snapped(jobs[i], live[i]))
    && (forall k :: 0 <= k < |joins| ==>
          SnappedAfterLoop(jobs[joins[k].index], if joins[k].Returned? then joins[k].summary else live[joins[k].index]))
  }

  /** Exact: under the job's name, field by field what the runner's events amount to; and no counter of
      any snapshot ever taken is above it. */
  ghost predicate Exact(job: Job, s: Summary) {
    var w := job.History();
    var final := Runner.Tally(job.spec, w.events);
    && s.name == job.name && s.fires == final.fires && s.failures == final.failures && s.skips == final.skips
    && s.paused == final.paused && s.degraded == final.degraded && s.lastError == final.lastError
    && (|w.log| < WORD ==> forall l :: 0 <= l < |w.shots| ==> AtLeast(s, w.shots[l].got))
  }

  ghost predicate AtLeast(s: Summary, c: Snapshot.Counters) {
    s.fires >= c.fires && s.failures >= c.failures && s.skips >= c.skips && s.paused >= c.paused
  }

  ghost predicate AtMost(s: Summary, c: Snapshot.Counters) {
    s.fires <= c.fires && s.failures <= c.failures && s.skips <= c.skips && s.paused <= c.paused
  }

  /** Between: a snapshot not above the counters at any later moment, nor below any earlier snapshot. */
  ghost predicate Between(job: Job, s: Summary) {
    exists k: nat :: TakenAs(job, k, s) && (|job.History().log| < WORD ==> Bounds(job.History(), k, s))
  }

  ghost predicate Bounds(w: Snapshot.World, k: nat, s: Summary)
    requires k < |w.shots|
  {
    && (forall t :: w.shots[k].end <= t < |w.log| ==> AtMost(s, w.log[t]))
    && (forall l :: 0 <= l < |w.shots| && w.shots[l].end <= w.shots[k].begin ==> AtLeast(s, w.shots[l].got))
  }

  lemma SnappedIsBetween(job: Job, s: Summary)
    requires Snapped(job, s)
    ensures Between(job, s)
  {
    var k: nat :| TakenAs(job, k, s);
    var w := job.History();
    if |w.log| < WORD {
      forall t | w.shots[k].end <= t < |w.log| ensures AtMost(s, w.log[t]) {
        Snapshot.SnapshotBelowMemory(job.spec, job.readers, job.life, k, t);
      }
      forall l | 0 <= l < |w.shots| && w.shots[l].end <= w.shots[k].begin
        ensures AtLeast(s, w.shots[l].got)
      {
        Snapshot.LaterSnapshotsDominate(job.spec, job.readers, job.life, l, k);
      }
    }
  }

  lemma AfterLoopIsExact(job: Job, s: Summary)
    requires SnappedAfterLoop(job, s)
    ensures Exact(job, s)
  {
    var k: nat :| TakenAs(job, k, s) && AfterLoop(job, k);
    var w := job.History();
    Snapshot.FinalSummaryIsExact(job.spec, job.readers, job.life, k);
    if |w.log| < WORD {
      Snapshot.RunIsTruthful(job.spec, job.readers, job.life);
      assert Snapshot.TrueShot(w.log, w.shots[k]);
      Snapshot.QuietSnapshotIsExact(job.spec, job.readers, job.life, k);
      forall l | 0 <= l < |w.shots| ensures AtLeast(s, w.shots[l].got) {
        assert Snapshot.TrueShot(w.log, w.shots[l]);
        Snapshot.SnapshotBelowMemory(job.spec, job.readers, job.life, l, |w.log| - 1);
      }
    }
  }

  /** Each runner's entry: under its own name, exact if its loop ended, and in any case between what was
      reported before and what its counters are afterwards. */
  lemma EntryIsHonest(jobs: seq<Job>, joins: seq<Join>, live: seq<Summary>, i: nat, entry: Summary)
    requires FromLoops(jobs, joins, live) && i < |jobs| && IsEntry(joins, live, i, entry)
    ensures entry.name == jobs[i].name && Between(jobs[i], entry)
    ensures (exists k :: 0 <= k < |joins| && joins[k].index == i) ==> Exact(jobs[i], entry)
  {
    if k :| 0 <= k < |joins| && joins[k].index == i {
      if joins[k].Returned? {
        var l :| 0 <= l < |joins| && joins[l] == Returned(i, entry);
        assert l == k;
      } else {
        forall l | 0 <= l < |joins| && joins[l].index == i ensures l == k {}
      }
      assert SnappedAfterLoop(jobs[i], entry);
      AfterLoopIsExact(jobs[i], entry);
    }
    assert Snapped(jobs[i], live[i]);
    SnappedIsBetween(jobs[i], entry);
  }

  /** The report, for every completion order, every set of failed joins and every set of loops cut off:
      each registered runner has exactly one entry, under its own name, duplicates included; the entries
      are sorted by name, runners of one name in registration order; an entry is exact if the loop ended,
      and never above the runner's final counters otherwise. */
  lemma ReportIsHonest(jobs: seq<Job>, joins: seq<Join>, live: seq<Summary>, entries: seq<Summary>, order: seq<nat>, report: seq<Summary>)
    requires FromLoops(jobs, joins, live) && AreEntries(joins, live, entries)
    requires IsOrder(entries, order) && report == Pick(entries, order)
    ensures |report| == |order| == |jobs|
    ensures forall i :: 0 <= i < |jobs| ==> i in order
    ensures forall p :: 0 <= p < |order| ==> order[p] < |jobs| && report[p].name == jobs[order[p]].name
    ensures forall p :: 0 <= p < |order| ==> order[p] < |jobs| && Between(jobs[order[p]], report[p])
    ensures forall p :: 0 <= p < |order| && (exists k :: 0 <= k < |joins| && joins[k].index == order[p]) ==>
      order[p] < |jobs| && Exact(jobs[order[p]], report[p])
    ensures forall p, q :: 0 <= p < q < |order| ==>
      var i, j := order[p], order[q];
      i != j && i < |jobs| && j < |jobs| && Precedes(jobs[i].name, jobs[j].name) && (jobs[i].name == jobs[j].name ==> i < j)
  {
    forall p | 0 <= p < |order|
      ensures report[p].name == jobs[order[p]].name && Between(jobs[order[p]], report[p])
      ensures (exists k :: 0 <= k < |joins| && joins[k].index == order[p]) ==> Exact(jobs[order[p]], report[p])
    {
      assert IsEntry(joins, live, order[p], entries[order[p]]);
      EntryIsHonest(jobs, joins, live, order[p], entries[order[p]]);
    }
    forall p, q | 0 <= p < q < |order|
      ensures var i, j := order[p], order[q];
        i != j && Precedes(jobs[i].name, jobs[j].name) && (jobs[i].name == jobs[j].name ==> i < j)
    {
      NameLeIsLexicographic(entries[order[p]].name, entries[order[q]].name);
      assert Before(entries, order[p], order[q]);
      assert report[p] == entries[order[p]] && report[q] == entries[order[q]];
    }
  }
}
