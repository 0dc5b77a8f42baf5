// The daily job-alert digest: a bounded worker pool inside a keyset-paginated loop.

/** Workers share one `nextIndex` and hand over control only where they await. A schedule is any
    order of the two atomic stretches a worker has: `Poll` (test the loop guard and take an item)
    and `Settle` (the awaited task ends). */
module WorkerPool {

  datatype Worker = AtLoopHead | InTask(item: nat) | Exited

  datatype Pool = Pool(
    total: nat,                    // items in the batch
    nextIndex: nat,                // shared by every worker
    workers: seq<Worker>,
    started: seq<nat>,             // item indices in the order they were taken
    settled: seq<nat>)             // item indices in the order their tasks ended

  datatype Event = Poll(worker: nat) | Settle(worker: nat)

  function Min(a: nat, b: nat): nat { if a < b then a else b }

  function Launch(total: nat, concurrency: nat): Pool {
    Pool(total, 0, seq(Min(concurrency, total), _ => AtLoopHead), [], [])
  }

  predicate Enabled(p: Pool, e: Event) {
    match e
    case Poll(w) => w < |p.workers| && p.workers[w].AtLoopHead?
    case Settle(w) => w < |p.workers| && p.workers[w].InTask?
  }

  function Step(p: Pool, e: Event): Pool
    requires Enabled(p, e)
  {
    match e
    case Poll(w) =>
      if p.nextIndex < p.total then
        p.(nextIndex := p.nextIndex + 1,
           workers := p.workers[w := InTask(p.nextIndex)],
           started := p.started + [p.nextIndex])
      else
        p.(workers := p.workers[w := Exited])
    case Settle(w) =>
      p.(workers := p.workers[w := AtLoopHead], settled := p.settled + [p.workers[w].item])
  }

  predicate IsSchedule(p: Pool, events: seq<Event>)
    decreases |events|
  {
    events == [] || (Enabled(p, events[0]) && IsSchedule(Step(p, events[0]), events[1..]))
  }

  function Exec(p: Pool, events: seq<Event>): Pool
    requires IsSchedule(p, events)
    decreases |events|
  {
    if events == [] then p else Exec(Step(p, events[0]), events[1..])
  }

  /** What `Promise.all(workers)` waits for. */
  predicate AllExited(p: Pool) {
    forall w :: 0 <= w < |p.workers| ==> p.workers[w].Exited?
  }

  function Held(w: Worker): multiset<nat> {
    if w.InTask? then multiset{w.item} else multiset{}
  }

  function InFlight(ws: seq<Worker>): multiset<nat> {
    if ws == [] then multiset{} else InFlight(ws[1..]) + Held(ws[0])
  }

  function UpTo(n: nat): (r: seq<nat>)
    ensures |r| == n && forall i :: 0 <= i < n ==> r[i] == i
  {
    seq(n, i => i)
  }

  /** The items taken are exactly the first `nextIndex`, each once and in order; each of them is
      either still in flight or settled, once; a worker leaves only when nothing is left to take. */
  ghost predicate Inv(p: Pool, total: nat, concurrency: nat) {
    && p.total == total && |p.workers| == Min(concurrency, total)
    && p.nextIndex <= p.total
    && p.started == UpTo(p.nextIndex)
    && multiset(p.started) == InFlight(p.workers) + multiset(p.settled)
    && (forall w :: 0 <= w < |p.workers| && p.workers[w].Exited? ==> p.nextIndex == p.total)
  }

  function Weight(w: Worker): nat {
    match w case AtLoopHead => 1 case InTask(_) => 2 case Exited => 0
  }

  function WeightSum(ws: seq<Worker>): nat {
    if ws == [] then 0 else Weight(ws[0]) + WeightSum(ws[1..])
  }

  function Remaining(p: Pool): int {
    2 * (p.total - p.nextIndex) + WeightSum(p.workers)
  }

  lemma AddBoth(a: multiset<nat>, b: multiset<nat>, c: multiset<nat>, d: multiset<nat>, e: multiset<nat>)
    requires a + b == c + d
    ensures (a + e) + b == (c + e) + d
  {
    assert (a + e) + b == (a + b) + e;
    assert (c + e) + d == (c + d) + e;
  }

  lemma {:induction false} InFlightUpdate(ws: seq<Worker>, w: nat, to: Worker)
    requires w < |ws|
    ensures InFlight(ws[w := to]) + Held(ws[w]) == InFlight(ws) + Held(to)
  {
    var after := ws[w := to];
    var head, held := Held(ws[0]), Held(ws[w]);
    if w == 0 {
      assert after[1..] == ws[1..];
      var rest := InFlight(ws[1..]);
      assert (rest + Held(to)) + held == (rest + held) + Held(to);
    } else {
      assert after[1..] == ws[1..][w - 1 := to];
      InFlightUpdate(ws[1..], w - 1, to);
      AddBoth(InFlight(after[1..]), held, InFlight(ws[1..]), Held(to), head);
    }
  }

  lemma {:induction false} WeightUpdate(ws: seq<Worker>, w: nat, to: Worker)
    requires w < |ws|
    ensures WeightSum(ws[w := to]) + Weight(ws[w]) == WeightSum(ws) + Weight(to)
  {
    if w == 0 {
      assert ws[0 := to][1..] == ws[1..];
    } else {
      assert ws[w := to][1..] == ws[1..][w - 1 := to];
      WeightUpdate(ws[1..], w - 1, to);
    }
  }

  lemma {:induction false} InFlightBound(ws: seq<Worker>)
    ensures |InFlight(ws)| <= |ws|
    ensures (forall w :: 0 <= w < |ws| ==> !ws[w].InTask?) ==> InFlight(ws) == multiset{}
  {
    if ws != [] {
      InFlightBound(ws[1..]);
    }
  }

  lemma {:induction false} LaunchWeights(n: nat)
    ensures WeightSum(seq(n, _ => AtLoopHead)) == n
    ensures InFlight(seq(n, _ => AtLoopHead)) == multiset{}
  {
    if n > 0 {
      assert seq(n, _ => AtLoopHead)[1..] == seq(n - 1, _ => AtLoopHead);
      LaunchWeights(n - 1);
    }
  }

  lemma LaunchInv(total: nat, concurrency: nat)
    ensures Inv(Launch(total, concurrency), total, concurrency)
    ensures Remaining(Launch(total, concurrency)) == 2 * total + Min(concurrency, total)
  {
    LaunchWeights(Min(concurrency, total));
  }

  lemma TakeKeepsAccount(p: Pool, w: nat)
    requires w < |p.workers| && p.workers[w].AtLoopHead?
    requires multiset(p.started) == InFlight(p.workers) + multiset(p.settled)
    ensures multiset(p.started + [p.nextIndex])
         == InFlight(p.workers[w := InTask(p.nextIndex)]) + multiset(p.settled)
  {
    var ws := p.workers[w := InTask(p.nextIndex)];
    InFlightUpdate(p.workers, w, InTask(p.nextIndex));
    assert InFlight(ws) + multiset{} == InFlight(ws);
    AddBoth(multiset(p.started), multiset{}, InFlight(p.workers), multiset(p.settled), multiset{p.nextIndex});
  }

  lemma PollInv(p: Pool, w: nat, total: nat, concurrency: nat)
    requires Inv(p, total, concurrency) && Enabled(p, Poll(w))
    ensures Inv(Step(p, Poll(w)), total, concurrency)
    ensures Remaining(Step(p, Poll(w))) == Remaining(p) - 1
  {
    hide InFlight, WeightSum;
    var q := Step(p, Poll(w));
    WeightUpdate(p.workers, w, q.workers[w]);
    if p.nextIndex < p.total {
      TakeKeepsAccount(p, w);
      assert UpTo(p.nextIndex) + [p.nextIndex] == UpTo(q.nextIndex);
    } else {
      InFlightUpdate(p.workers, w, Exited);
      assert InFlight(q.workers) + multiset{} == InFlight(q.workers);
    }
  }

  lemma SettleInv(p: Pool, w: nat, total: nat, concurrency: nat)
    requires Inv(p, total, concurrency) && Enabled(p, Settle(w))
    ensures Inv(Step(p, Settle(w)), total, concurrency)
    ensures Remaining(Step(p, Settle(w))) == Remaining(p) - 1
  {
    hide InFlight, WeightSum;
    WeightUpdate(p.workers, w, AtLoopHead);
    SettleKeepsAccount(p, w);
  }

  lemma SettleKeepsAccount(p: Pool, w: nat)
    requires w < |p.workers| && p.workers[w].InTask?
    requires multiset(p.started) == InFlight(p.workers) + multiset(p.settled)
    ensures multiset(p.started)
         == InFlight(p.workers[w := AtLoopHead]) + multiset(p.settled + [p.workers[w].item])
  {
    InFlightUpdate(p.workers, w, AtLoopHead);
    MoveOver(InFlight(p.workers[w := AtLoopHead]), InFlight(p.workers), multiset(p.settled), p.workers[w].item);
  }

  lemma MoveOver(fewer: multiset<nat>, more: multiset<nat>, rest: multiset<nat>, item: nat)
    requires fewer + multiset{item} == more + multiset{}
    ensures more + rest == fewer + (rest + multiset{item})
  {
    assert more == fewer + multiset{item};
  }

  lemma StepInv(p: Pool, e: Event, total: nat, concurrency: nat)
    requires Inv(p, total, concurrency) && Enabled(p, e)
    ensures Inv(Step(p, e), total, concurrency)
    ensures Remaining(Step(p, e)) == Remaining(p) - 1
  {
    match e
    case Poll(w) => PollInv(p, w, total, concurrency);
    case Settle(w) => SettleInv(p, w, total, concurrency);
  }

  lemma {:induction false} ScheduleInv(p: Pool, events: seq<Event>, total: nat, concurrency: nat)
    requires Inv(p, total, concurrency) && IsSchedule(p, events)
    ensures Inv(Exec(p, events), total, concurrency)
    ensures Remaining(Exec(p, events)) == Remaining(p) - |events|
    decreases |events|
  {
    if events != [] {
      StepInv(p, events[0], total, concurrency);
      ScheduleInv(Step(p, events[0]), events[1..], total, concurrency);
    }
  }

  /** Whatever the interleaving: the items started are exactly the first `nextIndex` ones, each
      once; at most min(concurrency, length) are in flight; started = in flight + settled. */
  lemma EveryScheduleIsSafe(total: nat, concurrency: nat, events: seq<Event>)
    requires IsSchedule(Launch(total, concurrency), events)
    ensures var p := Exec(Launch(total, concurrency), events);
      && p.started == UpTo(p.nextIndex) && p.nextIndex <= total
      && |InFlight(p.workers)| <= Min(concurrency, total)
      && multiset(UpTo(p.nextIndex)) == InFlight(p.workers) + multiset(p.settled)
  {
    LaunchInv(total, concurrency);
    ScheduleInv(Launch(total, concurrency), events, total, concurrency);
    InFlightBound(Exec(Launch(total, concurrency), events).workers);
  }

  lemma {:induction false} NoWeightMeansExited(ws: seq<Worker>)
    ensures WeightSum(ws) == 0 <==> forall w :: 0 <= w < |ws| ==> ws[w].Exited?
  {
    if ws != [] {
      NoWeightMeansExited(ws[1..]);
      assert forall w :: 0 < w < |ws| ==> ws[w] == ws[1..][w - 1];
      assert forall w :: 0 <= w < |ws| - 1 ==> ws[1..][w] == ws[w + 1];
    }
  }

  lemma OnlyExitedWorkersAreDone(p: Pool)
    ensures AllExited(p) <==> forall e :: !Enabled(p, e)
  {
    if !AllExited(p) {
      var w :| 0 <= w < |p.workers| && !p.workers[w].Exited?;
      assert Enabled(p, Poll(w)) || Enabled(p, Settle(w));
    }
  }

  lemma {:induction false} NoWorkersNoSteps(p: Pool, events: seq<Event>)
    requires |p.workers| == 0 && IsSchedule(p, events)
    ensures Exec(p, events) == p
  {
  }

  /** No schedule is longer than 2·total + workers stretches, none gets stuck before all workers
      have left, and all have left after exactly that many: every schedule terminates. */
  lemma {:induction false} EveryScheduleTerminates(total: nat, concurrency: nat, events: seq<Event>)
    requires IsSchedule(Launch(total, concurrency), events)
    ensures |events| <= 2 * total + Min(concurrency, total)
    ensures var p := Exec(Launch(total, concurrency), events);
      && (AllExited(p) <==> forall e :: !Enabled(p, e))
      && (concurrency > 0 ==> (AllExited(p) <==> |events| == 2 * total + Min(concurrency, total)))
  {
    LaunchInv(total, concurrency);
    ScheduleInv(Launch(total, concurrency), events, total, concurrency);
    var p := Exec(Launch(total, concurrency), events);
    NoWeightMeansExited(p.workers);
    OnlyExitedWorkersAreDone(p);
    if concurrency > 0 && total > 0 {
      assert p.workers[0] in p.workers;
    }
  }

  /** When the pool is done every item has settled exactly once, if and only if there was a worker
      to do it (or nothing to do). */
  lemma FinishedPoolSettledEverythingOnce(total: nat, concurrency: nat, events: seq<Event>)
    requires IsSchedule(Launch(total, concurrency), events)
    requires AllExited(Exec(Launch(total, concurrency), events))
    ensures multiset(Exec(Launch(total, concurrency), events).settled) == multiset(UpTo(total))
            <==> concurrency > 0 || total == 0
  {
    LaunchInv(total, concurrency);
    ScheduleInv(Launch(total, concurrency), events, total, concurrency);
    var p := Exec(Launch(total, concurrency), events);
    InFlightBound(p.workers);
    if concurrency > 0 && total > 0 {
      assert p.workers[0].Exited?;
    } else if total > 0 {
      NoWorkersNoSteps(Launch(total, concurrency), events);
      assert UpTo(total)[0] in multiset(UpTo(total));
    }
  }
}

/** The keyset-paginated outer loop. `tableAt(k)` is the saved_searches table at the k-th read: rows may
    come and go between reads. Ids stand for their rank in the database's string order. */
module Digest {
  import opened Wrappers
  import opened SortedSets
  import opened WorkerPool

  const BATCH_SIZE: nat := 200
  const SEND_CONCURRENCY: nat := 15

  type Id = nat

  function Take(s: seq<Id>, n: nat): seq<Id> { if |s| <= n then s else s[..n] }

  function RowsFrom(table: set<Id>, c: Id): (rows: seq<Id>)
    requires c in table
    ensures rows != [] && rows[0] == c && StrictlyAscending(rows)
    ensures forall r :: r in rows <==> r in table && r >= c
  {
    var rows := Ascending(set r | r in table && r >= c);
    assert c in rows && rows[0] in rows;
    rows
  }

  predicate Above(r: Id, cursor: Option<Id>) {
    cursor.None? || r > cursor.value
  }

  predicate CursorAlive(table: set<Id>, cursor: Option<Id>) {
    cursor.None? || cursor.value in table
  }

  /** The rows after the cursor, in id order; `skip: 1` leaves out the cursor's own. */
  function RowsAfter(table: set<Id>, cursor: Option<Id>): (rows: seq<Id>)
    requires CursorAlive(table, cursor)
    ensures StrictlyAscending(rows)
    ensures forall r :: r in rows <==> r in table && Above(r, cursor)
  {
    if cursor.None? then Ascending(table)
    else
      var rows := RowsFrom(table, cursor.value);
      TailIsAbove(rows, cursor.value);
      rows[1..]
  }

  lemma TailIsAbove(rows: seq<Id>, c: Id)
    requires rows != [] && rows[0] == c && StrictlyAscending(rows)
    ensures StrictlyAscending(rows[1..])
    ensures forall r :: r in rows[1..] <==> r in rows && r > c
  {
    assert forall i :: 0 < i < |rows| ==> rows[i] == rows[1..][i - 1];
  }

  /** `findMany({ take, skip: 1, cursor: { id }, orderBy: { id: 'asc' } })`; a cursor whose row is
      gone yields no rows. */
  function FindBatch(table: set<Id>, cursor: Option<Id>, take: nat): seq<Id> {
    if CursorAlive(table, cursor) then Take(RowsAfter(table, cursor), take) else []
  }

  lemma TakeIsPrefix(rows: seq<Id>, take: nat)
    requires StrictlyAscending(rows)
    ensures var b := Take(rows, take);
      && StrictlyAscending(b) && |b| <= take
      && (forall r :: r in b ==> r in rows)
      && (forall r :: r in rows && r !in b ==> |b| == take && forall x :: x in b ==> x < r)
  {
  }

  /** A batch read is the gap-free run of rows right after the cursor, short only at the end. */
  lemma BatchIsNextRows(table: set<Id>, cursor: Option<Id>, take: nat)
    ensures var b := FindBatch(table, cursor, take);
      && StrictlyAscending(b) && |b| <= take
      && (forall r :: r in b ==> r in table && Above(r, cursor))
      && (CursorAlive(table, cursor) ==>
           forall r :: r in table && Above(r, cursor) && r !in b ==> |b| == take && forall x :: x in b ==> x < r)
  {
    if CursorAlive(table, cursor) {
      TakeIsPrefix(RowsAfter(table, cursor), take);
      hide Take, RowsAfter;
    }
  }

  function CursorAfter(batches: seq<seq<Id>>): Option<Id> {
    if batches == [] || batches[|batches| - 1] == [] then None
    else Some(batches[|batches| - 1][|batches[|batches| - 1]| - 1])
  }

  function Flatten(batches: seq<seq<Id>>): seq<Id> {
    if batches == [] then [] else Flatten(batches[..|batches| - 1]) + batches[|batches| - 1]
  }

  /** `batches` are what the loop read so far: none empty, each read after the one before. */
  predicate IsRunPrefix(tableAt: nat -> set<Id>, batches: seq<seq<Id>>, take: nat)
    decreases |batches|
  {
    batches == []
    || var n := |batches| - 1;
       IsRunPrefix(tableAt, batches[..n], take)
       && batches[n] != [] && batches[n] == FindBatch(tableAt(n), CursorAfter(batches[..n]), take)
  }

  predicate IsRun(tableAt: nat -> set<Id>, batches: seq<seq<Id>>, take: nat) {
    IsRunPrefix(tableAt, batches, take)
    && FindBatch(tableAt(|batches|), CursorAfter(batches), take) == []
  }

  lemma JoinAscending(a: seq<Id>, b: seq<Id>, cursor: Option<Id>)
    requires StrictlyAscending(a) && StrictlyAscending(b) && b != []
    requires forall r :: r in a ==> cursor.Some? && r <= cursor.value
    requires forall r :: r in b ==> Above(r, cursor)
    ensures StrictlyAscending(a + b)
    ensures forall r :: r in a + b ==> r <= b[|b| - 1]
  {
    var s := a + b;
    forall i, j | 0 <= i < j < |s| ensures s[i] < s[j] {
      if i < |a| <= j {
        assert s[i] in a && s[j] in b;
      }
    }
    forall r | r in s ensures r <= s[|s| - 1] {
      var i :| 0 <= i < |s| && s[i] == r;
    }
  }

  /** Whatever happens to the table between reads, the rows visited strictly ascend: the batches
      are disjoint and in id order, and no saved search is visited twice. */
  lemma {:induction false} VisitsAscend(tableAt: nat -> set<Id>, batches: seq<seq<Id>>, take: nat)
    requires IsRunPrefix(tableAt, batches, take)
    ensures StrictlyAscending(Flatten(batches))
    ensures batches == [] <==> CursorAfter(batches).None?
    ensures forall r :: r in Flatten(batches) ==> CursorAfter(batches).Some? && r <= CursorAfter(batches).value
    decreases |batches|
  {
    hide FindBatch;
    if batches != [] {
      var n := |batches| - 1;
      VisitsAscend(tableAt, batches[..n], take);
      BatchIsNextRows(tableAt(n), CursorAfter(batches[..n]), take);
      JoinAscending(Flatten(batches[..n]), batches[n], CursorAfter(batches[..n]));
    }
  }

  ghost predicate Stable(tableAt: nat -> set<Id>, upTo: nat, r: Id) {
    forall k :: 0 <= k <= upTo ==> r in tableAt(k)
  }

  /** Of the rows present at every read, exactly those not above the last cursor were visited. */
  lemma {:induction false} StableRowsVisited(tableAt: nat -> set<Id>, batches: seq<seq<Id>>, take: nat, r: Id)
    requires IsRunPrefix(tableAt, batches, take)
    requires forall k :: 0 <= k < |batches| ==> r in tableAt(k)
    ensures r in Flatten(batches) <==> CursorAfter(batches).Some? && r <= CursorAfter(batches).value
    decreases |batches|
  {
    hide FindBatch;
    VisitsAscend(tableAt, batches, take);
    if batches != [] {
      var n := |batches| - 1;
      var cursor := CursorAfter(batches[..n]);
      StableRowsVisited(tableAt, batches[..n], take, r);
      VisitsAscend(tableAt, batches[..n], take);
      BatchIsNextRows(tableAt(n), cursor, take);
      assert CursorAfter(batches).value in batches[n];
      NonEmptyBatchHasCursor(tableAt(n), cursor, take);
    }
  }

  lemma NonEmptyBatchHasCursor(table: set<Id>, cursor: Option<Id>, take: nat)
    ensures FindBatch(table, cursor, take) != [] ==> CursorAlive(table, cursor)
  {}

  /** Every row present throughout is visited (once, by VisitsAscend) if and only if the last read
      still found its cursor row, or nothing stable lay beyond it. */
  lemma StableRowsAllVisitedIff(tableAt: nat -> set<Id>, batches: seq<seq<Id>>, take: nat)
    requires IsRun(tableAt, batches, take) && take > 0
    ensures (forall r :: Stable(tableAt, |batches|, r) ==> r in Flatten(batches))
      <==> (CursorAlive(tableAt(|batches|), CursorAfter(batches))
            || forall r :: Stable(tableAt, |batches|, r) ==> !Above(r, CursorAfter(batches)))
  {
    var n, cursor := |batches|, CursorAfter(batches);
    VisitsAscend(tableAt, batches, take);
    BatchIsNextRows(tableAt(n), cursor, take);
    forall r | Stable(tableAt, n, r)
      ensures r in Flatten(batches) <==> !Above(r, cursor)
      ensures CursorAlive(tableAt(n), cursor) ==> !Above(r, cursor)
    {
      StableRowsVisited(tableAt, batches, take, r);
      assert r in tableAt(n);
    }
  }

  /** A cursor row deleted between two reads ends the digest early and silently: row 7 is there at
      every read and never visited. */
  lemma DeletedCursorRowSkipsTheRest()
    ensures var tableAt: nat -> set<Id> := k => if k == 0 then {3, 7} else {7};
      IsRun(tableAt, [[3]], 1) && Stable(tableAt, 1, 7) && 7 !in Flatten([[3]])
  {
    var tableAt: nat -> set<Id> := k => if k == 0 then {3, 7} else {7};
    var first := Ascending({3, 7});
    assert 3 in first && 7 in first && |first| == 2;
    assert first[0] in first && first[1] in first;
    assert first[..1] == [3];
    assert [[3]][..0] == [];
    assert Flatten([[3]]) == Flatten([[3]][..0]) + [3] == [3];
  }

  /** With no concurrent change, the batches concatenate to the whole table in ascending order. */
  lemma FixedTableReadExactly(table: set<Id>, batches: seq<seq<Id>>, take: nat)
    requires IsRun(_ => table, batches, take) && take > 0
    ensures Flatten(batches) == Ascending(table)
  {
    hide FindBatch;
    var tableAt: nat -> set<Id> := _ => table;
    VisitsAscend(tableAt, batches, take);
    VisitedComeFromTable(table, batches, take);
    if batches != [] {
      BatchIsNextRows(table, CursorAfter(batches[..|batches| - 1]), take);
      assert CursorAfter(batches).value in batches[|batches| - 1];
    }
    assert CursorAlive(tableAt(|batches|), CursorAfter(batches));
    StableRowsAllVisitedIff(tableAt, batches, take);
    assert forall r :: r in table ==> Stable(tableAt, |batches|, r);
    AscendingUnique(Flatten(batches), Ascending(table));
  }

  lemma {:induction false} VisitedComeFromTable(table: set<Id>, batches: seq<seq<Id>>, take: nat)
    requires IsRunPrefix(_ => table, batches, take)
    ensures forall r :: r in Flatten(batches) ==> r in table
    decreases |batches|
  {
    if batches != [] {
      var n := |batches| - 1;
      VisitedComeFromTable(table, batches[..n], take);
      BatchIsNextRows(table, CursorAfter(batches[..n]), take);
    }
  }

  function ItemsAt(items: seq<Id>, indices: seq<nat>): (r: seq<Id>)
    requires forall i :: i in indices ==> i < |items|
    ensures |r| == |indices|
  {
    seq(|indices|, k requires 0 <= k < |indices| => assert indices[k] in indices; items[indices[k]])
  }

  lemma WithoutAt<T>(s: seq<T>, j: nat)
    requires j < |s|
    ensures multiset(s) == multiset(s[..j] + s[j + 1..]) + multiset{s[j]}
  {
    assert s == s[..j] + [s[j]] + s[j + 1..];
  }

  lemma {:induction false} PermutedItems(items: seq<Id>, a: seq<nat>, b: seq<nat>)
    requires multiset(a) == multiset(b)
    requires forall i :: i in a ==> i < |items|
    requires forall i :: i in b ==> i < |items|
    ensures multiset(ItemsAt(items, a)) == multiset(ItemsAt(items, b))
    decreases |a|
  {
    assert |a| == |multiset(a)| == |multiset(b)| == |b|;
    if a != [] {
      assert a[0] in multiset(b);
      var j :| 0 <= j < |b| && b[j] == a[0];
      var rest := b[..j] + b[j + 1..];
      assert a[..0] + a[1..] == a[1..];
      SameWithout(a, b, j);
      ItemsWithoutAt(items, a, 0);
      ItemsWithoutAt(items, b, j);
      PermutedItems(items, a[1..], rest);
    }
  }

  lemma SameWithout(a: seq<nat>, b: seq<nat>, j: nat)
    requires multiset(a) == multiset(b) && a != [] && j < |b| && b[j] == a[0]
    ensures multiset(a[1..]) == multiset(b[..j] + b[j + 1..])
  {
    assert a[..0] + a[1..] == a[1..];
    WithoutAt(a, 0);
    WithoutAt(b, j);
    Cancel(multiset(a[1..]), multiset(b[..j] + b[j + 1..]), a[0]);
  }

  lemma Cancel(x: multiset<nat>, y: multiset<nat>, e: nat)
    requires x + multiset{e} == y + multiset{e}
    ensures x == y
  {
    assert x == x + multiset{e} - multiset{e};
  }

  lemma ItemsWithoutAt(items: seq<Id>, s: seq<nat>, j: nat)
    requires j < |s| && forall i :: i in s ==> i < |items|
    ensures var rest := s[..j] + s[j + 1..]; forall i :: i in rest ==> i < |items|
    ensures s[j] in s
    ensures multiset(ItemsAt(items, s)) == multiset(ItemsAt(items, s[..j] + s[j + 1..])) + multiset{items[s[j]]}
  {
    var rest := s[..j] + s[j + 1..];
    assert forall i :: i in rest ==> i in s;
    var all := ItemsAt(items, s);
    assert ItemsAt(items, rest) == all[..j] + all[j + 1..];
    WithoutAt(all, j);
  }

  lemma {:induction false} HeldIsInFlight(ws: seq<Worker>, w: nat)
    requires w < |ws| && ws[w].InTask?
    ensures ws[w].item in InFlight(ws)
  {
    if w > 0 {
      HeldIsInFlight(ws[1..], w - 1);
    }
  }

  lemma SettledInRange(p: Pool, concurrency: nat)
    requires Inv(p, p.total, concurrency)
    ensures forall i :: i in p.settled ==> i < p.total
    ensures forall w :: 0 <= w < |p.workers| && p.workers[w].InTask? ==> p.workers[w].item < p.total
  {
    forall i | i in p.settled ensures i < p.total {
      assert i in multiset(p.settled);
      assert i in multiset(p.started);
    }
    forall w | 0 <= w < |p.workers| && p.workers[w].InTask? ensures p.workers[w].item < p.total {
      HeldIsInFlight(p.workers, w);
      assert p.workers[w].item in multiset(p.started);
    }
  }

  /** Settling a worker ends the item it was given, and only that one. */
  lemma SettleEndsItem(items: seq<Id>, p: Pool, w: nat, concurrency: nat)
    requires Inv(p, |items|, concurrency) && Enabled(p, Settle(w))
    requires forall i :: i in p.settled ==> i < |items|
    ensures p.workers[w].item < |items|
    ensures var q := Step(p, Settle(w));
      && Inv(q, |items|, concurrency) && Remaining(q) < Remaining(p)
      && (forall i :: i in q.settled ==> i < |items|)
      && ItemsAt(items, q.settled) == ItemsAt(items, p.settled) + [items[p.workers[w].item]]
  {
    SettledInRange(p, concurrency);
    SettleInv(p, w, |items|, concurrency);
  }

  lemma FinishedBatch(p: Pool, items: seq<Id>, concurrency: nat)
    requires Inv(p, |items|, concurrency) && AllExited(p)
    ensures forall i :: i in p.settled ==> i < |items|
    ensures concurrency > 0 ==> multiset(ItemsAt(items, p.settled)) == multiset(items)
  {
    SettledInRange(p, concurrency);
    InFlightBound(p.workers);
    if concurrency > 0 {
      assert |items| > 0 ==> p.workers[0].Exited?;
      PermutedItems(items, p.settled, UpTo(|items|));
      assert ItemsAt(items, UpTo(|items|)) == items;
    }
  }

  /** How the digest of one saved search goes: no mail is due, one is sent, or something throws. */
  datatype Sending = NothingDue | Mailed | Threw

  /** How many of the searches went in one of the `wanted` ways. */
  function Tally(ids: seq<Id>, sending: Id -> Sending, wanted: set<Sending>): nat {
    if ids == [] then 0
    else Tally(ids[..|ids| - 1], sending, wanted) + (if sending(ids[|ids| - 1]) in wanted then 1 else 0)
  }

  lemma {:induction false} TallyAppend(a: seq<Id>, b: seq<Id>, sending: Id -> Sending, wanted: set<Sending>)
    ensures Tally(a + b, sending, wanted) == Tally(a, sending, wanted) + Tally(b, sending, wanted)
    decreases |b|
  {
    if b == [] {
      assert a + b == a;
    } else {
      assert (a + b)[..|a + b| - 1] == a + b[..|b| - 1];
      TallyAppend(a, b[..|b| - 1], sending, wanted);
    }
  }

  /** A tally does not depend on the order the searches came in. */
  lemma {:induction false} TallyIsOrderless(a: seq<Id>, b: seq<Id>, sending: Id -> Sending, wanted: set<Sending>)
    requires multiset(a) == multiset(b)
    ensures Tally(a, sending, wanted) == Tally(b, sending, wanted)
    decreases |a|
  {
    assert |a| == |multiset(a)| == |multiset(b)| == |b|;
    if a != [] {
      assert a[0] in multiset(b);
      var j :| 0 <= j < |b| && b[j] == a[0];
      SameWithout(a, b, j);
      TallyIsOrderless(a[1..], b[..j] + b[j + 1..], sending, wanted);
      TallyAppend([a[0]], a[1..], sending, wanted);
      TallyAppend(b[..j], b[j + 1..], sending, wanted);
      TallyAppend(b[..j], [b[j]], sending, wanted);
      TallyAppend(b[..j] + [b[j]], b[j + 1..], sending, wanted);
      assert a == [a[0]] + a[1..] && b == b[..j] + [b[j]] + b[j + 1..];
    }
  }

  /** Every search of a batch is counted once, whichever way it went. */
  lemma {:induction false} TallyIsComplete(ids: seq<Id>, sending: Id -> Sending)
    ensures Tally(ids, sending, {Mailed, NothingDue}) + Tally(ids, sending, {Threw}) == |ids|
    ensures Tally(ids, sending, {Mailed}) + Tally(ids, sending, {NothingDue})
         == Tally(ids, sending, {Mailed, NothingDue})
    decreases |ids|
  {
    if ids != [] {
      TallyIsComplete(ids[..|ids| - 1], sending);
      var last := sending(ids[|ids| - 1]);
      assert last == Mailed || last == NothingDue || last == Threw;
    }
  }

  /** However large the batch and however its digests are scheduled, no more than fifteen are in flight at once. */
  lemma AtMostFifteenInFlight(total: nat, events: seq<Event>)
    requires IsSchedule(Launch(total, SEND_CONCURRENCY), events)
    ensures |InFlight(Exec(Launch(total, SEND_CONCURRENCY), events).workers)| <= 15
  {
    EveryScheduleIsSafe(total, SEND_CONCURRENCY, events);
  }

  class SendJobAlertDigestsHandler {
    var emailsSent: nat
    var failures: nat
    ghost var visited: seq<Id>   // saved searches whose task ended, in that order

    constructor ()
      ensures emailsSent == failures == 0 && visited == []
    {
      emailsSent, failures, visited := 0, 0, [];
    }

    /** One digest task: `emailsSent` counts every send that does not throw, also one that found nothing to mail, and
        `failures` every one that does. */
    method RunTask(search: Id, sending: Id -> Sending)
      modifies this
      ensures visited == old(visited) + [search]
      ensures emailsSent == old(emailsSent) + if sending(search) in {Mailed, NothingDue} then 1 else 0
      ensures failures == old(failures) + if sending(search) == Threw then 1 else 0
    {
      if sending(search) != Threw {
        emailsSent := emailsSent + 1;
      } else {
        failures := failures + 1;
      }
      visited := visited + [search];
    }

    /** The counters after `ended`, from what they were before. */
    ghost predicate Counted(sent: nat, failed: nat, ended: seq<Id>, sending: Id -> Sending)
      reads this
    {
      && emailsSent == sent + Tally(ended, sending, {Mailed, NothingDue})
      && failures == failed + Tally(ended, sending, {Threw})
    }

    lemma NothingCounted(sending: Id -> Sending)
      ensures Counted(emailsSent, failures, [], sending)
    {}

    lemma CountsAddUp(flat: seq<Id>, batch: seq<Id>, sent: nat, failed: nat, sending: Id -> Sending)
      requires Counted(sent, failed, batch, sending)
      requires sent == Tally(flat, sending, {Mailed, NothingDue}) && failed == Tally(flat, sending, {Threw})
      ensures Counted(0, 0, flat + batch, sending)
    {
      TallyAppend(flat, batch, sending, {Mailed, NothingDue});
      TallyAppend(flat, batch, sending, {Threw});
    }

    /** One atomic stretch of worker `w`: up to its next await. `run` mirrors the shared locals. */
    method Resume(items: seq<Id>, run: Pool, w: nat, sending: Id -> Sending, ghost concurrency: nat,
                  ghost ended: seq<Id>)
      returns (next: Pool, ghost nowEnded: seq<Id>)
      requires Inv(run, |items|, concurrency) && w < |run.workers| && !run.workers[w].Exited?
      requires (forall i :: i in run.settled ==> i < |items|) && ended == ItemsAt(items, run.settled)
      modifies this
      ensures Inv(next, |items|, concurrency) && Remaining(next) < Remaining(run)
      ensures (forall i :: i in next.settled ==> i < |items|) && nowEnded == ItemsAt(items, next.settled)
      ensures ended <= nowEnded && visited == old(visited) + nowEnded[|ended|..]
      ensures forall sent, failed ::
        old(Counted(sent, failed, ended, sending)) ==> Counted(sent, failed, nowEnded, sending)
    {
      hide Inv, Remaining;
      nowEnded := ended;
      match run.workers[w] {
        case AtLoopHead =>
          PollInv(run, w, |items|, concurrency);
          next := Step(run, Poll(w));
        case InTask(i) =>
          SettleEndsItem(items, run, w, concurrency);
          next := Step(run, Settle(w));
          RunTask(items[i], sending);
          nowEnded := ended + [items[i]];
          assert nowEnded[..|nowEnded| - 1] == ended;
      }
    }

    /** The scheduler may resume any worker at any time, and any digest may throw: both choices are
        left open. Every item still gets its task exactly once, counted the way it went. */
    method RunWithConcurrency(items: seq<Id>, concurrency: nat, sending: Id -> Sending) returns (ghost ended: seq<Id>)
      modifies this
      ensures visited == old(visited) + ended
      ensures multiset(ended) == if concurrency > 0 then multiset(items) else multiset{}
      ensures Counted(old(emailsSent), old(failures), ended, sending)
    {
      NothingCounted(sending);
      hide Counted, Tally;
      var run := Launch(|items|, concurrency);
      ended := [];
      LaunchInv(|items|, concurrency);
      while exists w :: 0 <= w < |run.workers| && !run.workers[w].Exited?
        invariant Inv(run, |items|, concurrency)
        invariant (forall i :: i in run.settled ==> i < |items|) && ended == ItemsAt(items, run.settled)
        invariant visited == old(visited) + ended
        invariant Counted(old(emailsSent), old(failures), ended, sending)
        invariant concurrency == 0 ==> ended == []
        decreases Remaining(run)
      {
        var w: nat :| 0 <= w < |run.workers| && !run.workers[w].Exited?;
        run, ended := Resume(items, run, w, sending, concurrency, ended);
      }
      FinishedBatch(run, items, concurrency);
    }

    /** One turn of the batch loop: read the next batch and run it. An empty batch runs nothing. */
    method RunNextBatch(table: set<Id>, cursor: Option<Id>, sending: Id -> Sending)
      returns (batch: seq<Id>, ghost ended: seq<Id>)
      modifies this
      ensures batch == FindBatch(table, cursor, 200)
      ensures visited == old(visited) + ended && multiset(ended) == multiset(batch)
      ensures Counted(old(emailsSent), old(failures), batch, sending)
    {
      batch := FindBatch(table, cursor, BATCH_SIZE);
      if |batch| == 0 {
        return batch, [];
      }
      ended := RunWithConcurrency(batch, SEND_CONCURRENCY, sending);
      TallyIsOrderless(ended, batch, sending, {Mailed, NothingDue});
      TallyIsOrderless(ended, batch, sending, {Threw});
    }

    /** The batch loop ends on every table history that stays within finitely many ids; what it visited is exactly
        what it read, and what it reports is how those visits went: as many failures as sends threw, and as many
        e-mails as were mailed plus the searches for which none was due. */
    method Execute(tableAt: nat -> set<Id>, sending: Id -> Sending, ghost universe: set<Id>)
      returns (batches: seq<seq<Id>>, ghost ended: seq<Id>)
      requires forall k :: tableAt(k) <= universe
      modifies this
      ensures IsRun(tableAt, batches, 200)
      ensures visited == old(visited) + ended && multiset(ended) == multiset(Flatten(batches))
      ensures failures == Tally(Flatten(batches), sending, {Threw})
      ensures emailsSent == Tally(Flatten(batches), sending, {Mailed}) + Tally(Flatten(batches), sending, {NothingDue})
      ensures emailsSent + failures == |Flatten(batches)|
    {
      hide Tally, FindBatch;
      emailsSent, failures := 0, 0;
      NothingCounted(sending);
      var cursor: Option<Id> := None;
      batches, ended := [], [];
      while true
        invariant IsRunPrefix(tableAt, batches, BATCH_SIZE) && cursor == CursorAfter(batches)
        invariant visited == old(visited) + ended && multiset(ended) == multiset(Flatten(batches))
        invariant Counted(0, 0, Flatten(batches), sending)
        decreases |Unread(universe, cursor)|
      {
        ghost var sent, failed := emailsSent, failures;
        var batch;
        ghost var more;
        batch, more := RunNextBatch(tableAt(|batches|), cursor, sending);
        if |batch| == 0 {
          assert more == [];
          break;
        }
        AppendEnded(old(visited), ended, more, Flatten(batches), batch);
        ExtendRun(tableAt, batches, batch, BATCH_SIZE);
        CountsAddUp(Flatten(batches), batch, sent, failed, sending);
        CursorAdvances(tableAt(|batches|), cursor, batch, BATCH_SIZE, universe);
        ended := ended + more;
        batches := batches + [batch];
        cursor := Some(batch[|batch| - 1]);
      }
      TallyIsComplete(Flatten(batches), sending);
    }
  }

  lemma AppendEnded(start: seq<Id>, ended: seq<Id>, more: seq<Id>, flat: seq<Id>, batch: seq<Id>)
    requires multiset(ended) == multiset(flat) && multiset(more) == multiset(batch)
    ensures (start + ended) + more == start + (ended + more)
    ensures multiset(ended + more) == multiset(flat + batch)
  {
  }

  lemma ExtendRun(tableAt: nat -> set<Id>, batches: seq<seq<Id>>, batch: seq<Id>, take: nat)
    requires IsRunPrefix(tableAt, batches, take)
    requires batch != [] && batch == FindBatch(tableAt(|batches|), CursorAfter(batches), take)
    ensures IsRunPrefix(tableAt, batches + [batch], take)
    ensures Flatten(batches + [batch]) == Flatten(batches) + batch
    ensures CursorAfter(batches + [batch]) == Some(batch[|batch| - 1])
  {
    var next := batches + [batch];
    assert next[..|batches|] == batches && next[|next| - 1] == batch;
  }

  /** Every id that could still be read: the measure the batch loop uses up. */
  function Unread(universe: set<Id>, cursor: Option<Id>): set<Id> {
    set u | u in universe && Above(u, cursor)
  }

  lemma CursorAdvances(table: set<Id>, cursor: Option<Id>, batch: seq<Id>, take: nat, universe: set<Id>)
    requires batch != [] && batch == FindBatch(table, cursor, take) && table <= universe
    ensures var next := Some(batch[|batch| - 1]);
      |Unread(universe, next)| < |Unread(universe, cursor)|
  {
    BatchIsNextRows(table, cursor, take);
    hide FindBatch;
    var next := batch[|batch| - 1];
    assert next in batch;
    FewerUnread(Unread(universe, Some(next)), Unread(universe, cursor), next);
  }

  lemma FewerUnread(after: set<Id>, before: set<Id>, read: Id)
    requires after <= before && read in before && read !in after
    ensures |after| < |before|
  {
    assert before == after + (before - after) && read in before - after;
  }
}
