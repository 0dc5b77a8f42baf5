// Chat send/read quotas: a Redis sorted-set log and an in-memory fallback, both sliding windows.

/** One user's quota under each implementation, as a function of the times of the calls. */
module SlidingWindow {
  import opened Wrappers

  /** Entries younger than the window. Both forms keep exactly these: the array filter keeps
      `now - t < window`, and ZREMRANGEBYSCORE drops the scores 0 .. now - window. */
  function Live(ts: seq<nat>, now: nat, window: nat): seq<nat> {
    if ts == [] then []
    else
      var older, t := Live(ts[..|ts| - 1], now, window), ts[|ts| - 1];
      if now - t < window then older + [t] else older
  }

  /** `consumeInMemory`: the call is recorded before it is judged. */
  function MemConsume(ts: seq<nat>, now: nat, limit: nat, window: nat): (seq<nat>, bool) {
    var kept := Live(ts, now, window) + [now];
    (kept, |kept| <= limit)
  }

  datatype ZSet = ZSet(scores: seq<nat>, expiresAt: nat)

  function Scores(key: Option<ZSet>): seq<nat> {
    if key.Some? then key.value.scores else []
  }

  /** A key whose PEXPIRE deadline has come no longer exists. */
  function Present(key: Option<ZSet>, now: nat): seq<nat> {
    if key.Some? && now < key.value.expiresAt then key.value.scores else []
  }

  /** The Lua script: evict, count, and only then record and re-arm the deadline. */
  function RedisConsume(key: Option<ZSet>, now: nat, limit: nat, window: nat): (Option<ZSet>, bool) {
    var scores := Live(Present(key, now), now, window);
    if |scores| < limit then (Some(ZSet(scores + [now], now + window)), true)
    else if scores == [] then (None, false)
    else (Some(ZSet(scores, key.value.expiresAt)), false)
  }

  /** A run: the times of one user's calls, latest last. */
  datatype Calls = NoCalls | Then(before: Calls, at: nat)

  /** Every call no later than `latest`, and in the order of the clock. */
  predicate Clocked(calls: Calls, latest: nat) {
    calls.NoCalls? || (calls.at <= latest && Clocked(calls.before, calls.at))
  }

  /** How many of `ts` lie in the half-open interval of one window starting at `a`. */
  function InWindow(ts: seq<nat>, a: int, window: nat): nat {
    if ts == [] then 0
    else InWindow(ts[..|ts| - 1], a, window) + (if a <= ts[|ts| - 1] < a + window then 1 else 0)
  }

  predicate UpTo(ts: seq<nat>, latest: int) {
    forall i :: 0 <= i < |ts| ==> ts[i] <= latest
  }

  function Attempts(calls: Calls): seq<nat> {
    if calls.NoCalls? then [] else Attempts(calls.before) + [calls.at]
  }

  // ----- what each form promises -----

  /** Admit a call at `now` iff fewer than `limit` calls, admitted or refused, lie in the window
      before it. */
  predicate MemAdmits(calls: Calls, now: nat, limit: nat, window: nat) {
    InWindow(Attempts(calls), now - window + 1, window) < limit
  }

  /** The admitted calls. */
  function MemLog(calls: Calls, limit: nat, window: nat): seq<nat> {
    if calls.NoCalls? then []
    else if MemAdmits(calls.before, calls.at, limit, window) then MemLog(calls.before, limit, window) + [calls.at]
    else MemLog(calls.before, limit, window)
  }

  /** Admit a call at `now` iff fewer than `limit` admitted calls lie in the window before it. */
  predicate RedisAdmits(calls: Calls, now: nat, limit: nat, window: nat)
    decreases calls, 1
  {
    InWindow(RedisLog(calls, limit, window), now - window + 1, window) < limit
  }

  function RedisLog(calls: Calls, limit: nat, window: nat): seq<nat>
    decreases calls, 0
  {
    if calls.NoCalls? then []
    else if RedisAdmits(calls.before, calls.at, limit, window) then RedisLog(calls.before, limit, window) + [calls.at]
    else RedisLog(calls.before, limit, window)
  }

  // ----- what each form stores -----

  function MemStore(calls: Calls, limit: nat, window: nat): seq<nat> {
    if calls.NoCalls? then [] else MemConsume(MemStore(calls.before, limit, window), calls.at, limit, window).0
  }

  function RedisStore(calls: Calls, limit: nat, window: nat): Option<ZSet> {
    if calls.NoCalls? then None else RedisConsume(RedisStore(calls.before, limit, window), calls.at, limit, window).0
  }

  // ----- entries and windows -----

  lemma LiveAppend(ts: seq<nat>, t: nat, now: nat, window: nat)
    ensures Live(ts + [t], now, window)
         == if now - t < window then Live(ts, now, window) + [t] else Live(ts, now, window)
  {
    assert (ts + [t])[..|ts|] == ts;
  }

  lemma InWindowAppend(ts: seq<nat>, t: nat, a: int, window: nat)
    ensures InWindow(ts + [t], a, window) == InWindow(ts, a, window) + (if a <= t < a + window then 1 else 0)
  {
    assert (ts + [t])[..|ts|] == ts;
  }

  lemma {:induction false} InWindowJoin(x: seq<nat>, y: seq<nat>, a: int, window: nat)
    ensures InWindow(x + y, a, window) == InWindow(x, a, window) + InWindow(y, a, window)
  {
    if y == [] {
      assert x + y == x;
    } else {
      InWindowJoin(x, y[..|y| - 1], a, window);
      assert x + y == (x + y[..|y| - 1]) + [y[|y| - 1]];
      InWindowAppend(x + y[..|y| - 1], y[|y| - 1], a, window);
    }
  }

  lemma {:induction false} InWindowOutside(ts: seq<nat>, a: int, window: nat)
    requires UpTo(ts, a - 1) || forall i :: 0 <= i < |ts| ==> a + window <= ts[i]
    ensures InWindow(ts, a, window) == 0
  {
    if ts != [] {
      InWindowOutside(ts[..|ts| - 1], a, window);
    }
  }

  lemma {:induction false} LiveTwice(ts: seq<nat>, earlier: nat, now: nat, window: nat)
    requires earlier <= now
    ensures Live(Live(ts, earlier, window), now, window) == Live(ts, now, window)
  {
    if ts != [] {
      var older, t := ts[..|ts| - 1], ts[|ts| - 1];
      LiveTwice(older, earlier, now, window);
      LiveAppend(Live(older, earlier, window), t, now, window);
    }
  }

  lemma {:induction false} LiveUpTo(ts: seq<nat>, now: nat, window: nat, latest: int)
    requires UpTo(ts, latest)
    ensures UpTo(Live(ts, now, window), latest)
    ensures latest + window <= now ==> Live(ts, now, window) == []
  {
    if ts != [] {
      LiveUpTo(ts[..|ts| - 1], now, window, latest);
    }
  }

  /** The live entries at `now` are those in the window that ends at `now`; every window that
      contains `now` holds at most that many of the entries so far. */
  lemma {:induction false} LiveCounts(ts: seq<nat>, now: nat, window: nat, a: int)
    requires UpTo(ts, now)
    ensures |Live(ts, now, window)| == InWindow(ts, now - window + 1, window)
    ensures a <= now < a + window ==> InWindow(ts, a, window) <= InWindow(ts, now - window + 1, window)
  {
    if ts != [] {
      LiveCounts(ts[..|ts| - 1], now, window, a);
    }
  }

  lemma {:induction false} LogsUpTo(calls: Calls, limit: nat, window: nat, latest: nat)
    requires Clocked(calls, latest)
    ensures UpTo(Attempts(calls), latest)
    ensures UpTo(MemLog(calls, limit, window), latest) && UpTo(RedisLog(calls, limit, window), latest)
  {
    if calls.Then? {
      LogsUpTo(calls.before, limit, window, calls.at);
    }
  }

  lemma {:induction false} MemLogIsSmaller(calls: Calls, limit: nat, window: nat, a: int)
    ensures InWindow(MemLog(calls, limit, window), a, window) <= InWindow(Attempts(calls), a, window)
  {
    if calls.Then? {
      MemLogIsSmaller(calls.before, limit, window, a);
      InWindowAppend(Attempts(calls.before), calls.at, a, window);
      InWindowAppend(MemLog(calls.before, limit, window), calls.at, a, window);
    }
  }

  lemma {:induction false} RedisLogIsSmaller(calls: Calls, limit: nat, window: nat, a: int)
    ensures InWindow(RedisLog(calls, limit, window), a, window) <= InWindow(Attempts(calls), a, window)
  {
    if calls.Then? {
      RedisLogIsSmaller(calls.before, limit, window, a);
      InWindowAppend(Attempts(calls.before), calls.at, a, window);
      InWindowAppend(RedisLog(calls.before, limit, window), calls.at, a, window);
    }
  }

  // ----- the in-memory form -----

  lemma {:induction false} MemStoreIsLiveCalls(calls: Calls, limit: nat, window: nat, now: nat)
    requires Clocked(calls, now) && window > 0
    ensures Live(MemStore(calls, limit, window), now, window) == Live(Attempts(calls), now, window)
  {
    if calls.Then? {
      var t, before := calls.at, MemStore(calls.before, limit, window);
      MemStoreIsLiveCalls(calls.before, limit, window, now);
      LiveTwice(before, t, now, window);
      LiveAppend(Live(before, t, window), t, now, window);
      LiveAppend(Attempts(calls.before), t, now, window);
    }
  }

  /** The array of timestamps answers every call as promised. */
  lemma MemStoreRefines(calls: Calls, now: nat, limit: nat, window: nat)
    requires Clocked(calls, now) && window > 0
    ensures MemConsume(MemStore(calls, limit, window), now, limit, window).1
      <==> MemAdmits(calls, now, limit, window)
  {
    MemStoreIsLiveCalls(calls, limit, window, now);
    LogsUpTo(calls, limit, window, now);
    LiveCounts(Attempts(calls), now, window, 0);
  }

  /** Between clears, no window holds more than `limit` admissions. */
  lemma {:induction false} MemWindowBound(calls: Calls, latest: nat, limit: nat, window: nat, a: int)
    requires Clocked(calls, latest) && window > 0
    ensures InWindow(MemLog(calls, limit, window), a, window) <= limit
  {
    if calls.Then? {
      var before, now := calls.before, calls.at;
      MemWindowBound(before, now, limit, window, a);
      LogsUpTo(before, limit, window, now);
      MemLogIsSmaller(before, limit, window, a);
      LiveCounts(Attempts(before), now, window, a);
      InWindowAppend(MemLog(before, limit, window), now, a, window);
    }
  }

  // ----- the Redis form -----

  /** PEXPIRE never drops a live entry: every score a key holds is at least one window older than
      the key's deadline. */
  lemma {:induction false} DeadlineCoversScores(calls: Calls, latest: nat, limit: nat, window: nat)
    requires Clocked(calls, latest)
    ensures var key := RedisStore(calls, limit, window);
      key.Some? ==> UpTo(key.value.scores, key.value.expiresAt - window) && UpTo(key.value.scores, latest)
  {
    if calls.Then? {
      DeadlineCoversScores(calls.before, calls.at, limit, window);
      var before, t := RedisStore(calls.before, limit, window), calls.at;
      LiveUpTo(Present(before, t), t, window, t);
      if before.Some? { LiveUpTo(Present(before, t), t, window, before.value.expiresAt - window); }
    }
  }

  lemma PresentIsLive(calls: Calls, limit: nat, window: nat, now: nat)
    requires Clocked(calls, now)
    ensures var key := RedisStore(calls, limit, window);
      Live(Present(key, now), now, window) == Live(Scores(key), now, window)
  {
    var key := RedisStore(calls, limit, window);
    DeadlineCoversScores(calls, now, limit, window);
    if key.Some? { LiveUpTo(key.value.scores, now, window, key.value.expiresAt - window); }
  }

  predicate Logs(log: seq<nat>, t: nat, nextLog: seq<nat>, limit: nat, window: nat) {
    nextLog == if InWindow(log, t - window + 1, window) < limit then log + [t] else log
  }

  lemma StoreStep(key: Option<ZSet>, log: seq<nat>, t: nat, nextLog: seq<nat>, now: nat, limit: nat, window: nat)
    requires Live(Present(key, t), t, window) == Live(log, t, window) && UpTo(log, t) && t <= now
    requires Logs(log, t, nextLog, limit, window)
    ensures RedisConsume(key, t, limit, window).1 <==> InWindow(log, t - window + 1, window) < limit
    ensures Live(Scores(RedisConsume(key, t, limit, window).0), now, window) == Live(nextLog, now, window)
  {
    var scores := Live(Present(key, t), t, window);
    LiveCounts(log, t, window, 0);
    LiveTwice(log, t, now, window);
    LiveAppend(scores, t, now, window);
    LiveAppend(log, t, now, window);
  }

  lemma {:induction false} ScoresAreLiveLog(calls: Calls, limit: nat, window: nat, now: nat)
    requires Clocked(calls, now) && window > 0
    ensures Live(Scores(RedisStore(calls, limit, window)), now, window)
         == Live(RedisLog(calls, limit, window), now, window)
  {
    if calls.Then? {
      var t, before := calls.at, RedisStore(calls.before, limit, window);
      var log := RedisLog(calls.before, limit, window);
      ScoresAreLiveLog(calls.before, limit, window, t);
      PresentIsLive(calls.before, limit, window, t);
      LogsUpTo(calls.before, limit, window, t);
      LastLogged(calls, limit, window);
      StoreStep(before, log, t, RedisLog(calls, limit, window), now, limit, window);
    }
  }

  /** Eviction and expiry lose nothing: what the key shows as live, at any later time, is exactly
      the live part of the whole admission log. */
  lemma RedisStoreIsLiveLog(calls: Calls, limit: nat, window: nat, now: nat)
    requires Clocked(calls, now) && window > 0
    ensures Live(Present(RedisStore(calls, limit, window), now), now, window)
         == Live(RedisLog(calls, limit, window), now, window)
  {
    PresentIsLive(calls, limit, window, now);
    ScoresAreLiveLog(calls, limit, window, now);
  }

  lemma LastLogged(calls: Calls, limit: nat, window: nat)
    requires calls.Then?
    ensures Logs(RedisLog(calls.before, limit, window), calls.at, RedisLog(calls, limit, window), limit, window)
  {
  }

  /** The evicted, expiring sorted set answers every call as promised. */
  lemma RedisStoreRefines(calls: Calls, now: nat, limit: nat, window: nat)
    requires Clocked(calls, now) && window > 0
    ensures RedisConsume(RedisStore(calls, limit, window), now, limit, window).1
      <==> RedisAdmits(calls, now, limit, window)
  {
    RedisStoreIsLiveLog(calls, limit, window, now);
    LogsUpTo(calls, limit, window, now);
    LastLogged(Then(calls, now), limit, window);
    StoreStep(RedisStore(calls, limit, window), RedisLog(calls, limit, window), now,
              RedisLog(Then(calls, now), limit, window), now, limit, window);
  }

  /** Over the whole run, no window holds more than `limit` admissions. */
  lemma {:induction false} RedisWindowBound(calls: Calls, latest: nat, limit: nat, window: nat, a: int)
    requires Clocked(calls, latest) && window > 0
    ensures InWindow(RedisLog(calls, limit, window), a, window) <= limit
  {
    if calls.Then? {
      var before, now := calls.before, calls.at;
      RedisWindowBound(before, now, limit, window, a);
      LogsUpTo(before, limit, window, now);
      LiveCounts(RedisLog(before, limit, window), now, window, a);
      InWindowAppend(RedisLog(before, limit, window), now, a, window);
    }
  }

  // ----- the two forms on one call sequence -----

  /** Every call the in-memory form admits, the Redis form admits too. */
  lemma MemAdmitsImpliesRedisAdmits(calls: Calls, now: nat, limit: nat, window: nat)
    ensures MemAdmits(calls, now, limit, window) ==> RedisAdmits(calls, now, limit, window)
  {
    RedisLogIsSmaller(calls, limit, window, now - window + 1);
  }

  predicate Agree(calls: Calls, limit: nat, window: nat) {
    calls.NoCalls?
    || (Agree(calls.before, limit, window)
        && MemAdmits(calls.before, calls.at, limit, window) == RedisAdmits(calls.before, calls.at, limit, window))
  }

  /** Every call the in-memory form refuses is refused while `limit` calls it admitted are still in
      the window: no refusal is owed to refused calls alone. */
  predicate RefusesOnlyWhenFull(calls: Calls, limit: nat, window: nat) {
    calls.NoCalls?
    || (RefusesOnlyWhenFull(calls.before, limit, window)
        && (MemAdmits(calls.before, calls.at, limit, window)
            || InWindow(MemLog(calls.before, limit, window), calls.at - window + 1, window) >= limit))
  }

  /** The two forms give the same answers on a run iff the in-memory form never refuses a call on
      account of refused ones. (The class comment claims they always do.) */
  lemma {:induction false} FormsAgreeIff(calls: Calls, limit: nat, window: nat)
    ensures Agree(calls, limit, window) <==> RefusesOnlyWhenFull(calls, limit, window)
    ensures Agree(calls, limit, window) ==> MemLog(calls, limit, window) == RedisLog(calls, limit, window)
  {
    if calls.Then? {
      FormsAgreeIff(calls.before, limit, window);
      MemAdmitsImpliesRedisAdmits(calls.before, calls.at, limit, window);
    }
  }

  /** `n` further calls, all at `t`. */
  function Burst(calls: Calls, t: nat, n: nat): Calls {
    if n == 0 then calls else Then(Burst(calls, t, n - 1), t)
  }

  lemma {:induction false} BurstCounts(calls: Calls, t: nat, n: nat, latest: nat, a: int, window: nat)
    requires Clocked(calls, latest) && latest <= t
    ensures Clocked(Burst(calls, t, n), t)
    ensures InWindow(Attempts(Burst(calls, t, n)), a, window)
         == InWindow(Attempts(calls), a, window) + (if a <= t < a + window then n else 0)
  {
    if n == 0 {
      ClockedLater(calls, latest, t);
    } else {
      BurstCounts(calls, t, n - 1, latest, a, window);
      InWindowAppend(Attempts(Burst(calls, t, n - 1)), t, a, window);
    }
  }

  lemma ClockedLater(calls: Calls, latest: nat, later: nat)
    requires Clocked(calls, latest) && latest <= later
    ensures Clocked(calls, later)
  {
  }

  /** A first burst of at most `limit` calls is admitted whole by both forms. */
  lemma {:induction false} FirstBurstAdmitted(t: nat, n: nat, limit: nat, window: nat)
    requires n <= limit && window > 0
    ensures MemLog(Burst(NoCalls, t, n), limit, window) == Attempts(Burst(NoCalls, t, n))
    ensures RedisLog(Burst(NoCalls, t, n), limit, window) == Attempts(Burst(NoCalls, t, n))
  {
    hide InWindow, MemLog, RedisLog, Attempts;
    EmptyLogs(limit, window);
    if n > 0 {
      FirstBurstAdmitted(t, n - 1, limit, window);
      BurstCounts(NoCalls, t, n - 1, 0, t - window + 1, window);
      NextOfBurst(Burst(NoCalls, t, n - 1), t, limit, window);
    }
  }

  lemma EmptyLogs(limit: nat, window: nat)
    ensures MemLog(NoCalls, limit, window) == RedisLog(NoCalls, limit, window) == Attempts(NoCalls) == []
    ensures forall a: int :: InWindow([], a, window) == 0
  {
  }

  lemma NextOfBurst(b: Calls, t: nat, limit: nat, window: nat)
    requires MemLog(b, limit, window) == RedisLog(b, limit, window) == Attempts(b)
    requires InWindow(Attempts(b), t - window + 1, window) < limit
    ensures MemLog(Then(b, t), limit, window) == RedisLog(Then(b, t), limit, window) == Attempts(Then(b, t))
  {
  }

  /** Retries refused inside the window leave the Redis log alone. */
  lemma {:induction false} RetriesRefused(limit: nat, window: nat, t: nat, n: nat)
    requires 0 < t < window
    ensures var b := Burst(NoCalls, 0, limit);
      RedisLog(Burst(b, t, n), limit, window) == RedisLog(b, limit, window)
  {
    if n > 0 {
      var b := Burst(NoCalls, 0, limit);
      RetriesRefused(limit, window, t, n - 1);
      FirstBurstAdmitted(0, limit, limit, window);
      BurstCounts(NoCalls, 0, limit, 0, t - window + 1, window);
    }
  }

  /** The converse fails for every limit: after `limit` sends at 0 and `limit` refused retries just
      before the window ends, the next send meets a window without a single admitted call. Redis
      admits it, memory refuses it. */
  lemma RefusedRetriesLockTheInMemoryCaller(limit: nat, window: nat)
    requires limit > 0 && window > 1
    ensures var calls := Burst(Burst(NoCalls, 0, limit), window - 1, limit);
      && Clocked(calls, window)
      && InWindow(RedisLog(calls, limit, window), 1, window) == 0
      && RedisAdmits(calls, window, limit, window) && !MemAdmits(calls, window, limit, window)
  {
    var b := Burst(NoCalls, 0, limit);
    var calls := Burst(b, window - 1, limit);
    FirstBurstAdmitted(0, limit, limit, window);
    BurstCounts(NoCalls, 0, limit, 0, 1, window);
    BurstCounts(b, window - 1, limit, 0, 1, window);
    ClockedLater(calls, window - 1, window);
    RetriesRefused(limit, window, window - 1, limit);
  }

  // ----- clears -----

  /** A whole in-memory run: sessions of calls, each but the last ended by a clear of the quota. */
  datatype Run = Open(calls: Calls) | Cleared(past: Run, clearedAt: nat, calls: Calls)

  function WithCalls(run: Run, calls: Calls): Run {
    match run
    case Open(_) => Open(calls)
    case Cleared(past, clearedAt, _) => Cleared(past, clearedAt, calls)
  }

  predicate NotBefore(calls: Calls, from: nat) {
    calls.NoCalls? || (from <= calls.at && NotBefore(calls.before, from))
  }

  predicate InOrder(run: Run, latest: nat) {
    Clocked(run.calls, latest)
    && (run.Cleared? ==>
          run.clearedAt <= latest && NotBefore(run.calls, run.clearedAt) && InOrder(run.past, run.clearedAt))
  }

  function RunLog(run: Run, limit: nat, window: nat): seq<nat> {
    match run
    case Open(calls) => MemLog(calls, limit, window)
    case Cleared(past, _, calls) => RunLog(past, limit, window) + MemLog(calls, limit, window)
  }

  function ClearsIn(run: Run, a: int, window: nat): nat {
    if run.Open? then 0
    else ClearsIn(run.past, a, window) + (if a <= run.clearedAt < a + window then 1 else 0)
  }

  lemma {:induction false} RunLogUpTo(run: Run, limit: nat, window: nat, latest: nat)
    requires InOrder(run, latest)
    ensures UpTo(RunLog(run, limit, window), latest)
  {
    LogsUpTo(run.calls, limit, window, latest);
    if run.Cleared? {
      RunLogUpTo(run.past, limit, window, run.clearedAt);
    }
  }

  lemma {:induction false} LogNotBefore(calls: Calls, limit: nat, window: nat, from: nat)
    requires NotBefore(calls, from)
    ensures forall i :: 0 <= i < |MemLog(calls, limit, window)| ==> from <= MemLog(calls, limit, window)[i]
  {
    if calls.Then? {
      LogNotBefore(calls.before, limit, window, from);
    }
  }

  lemma OneMoreTime(limit: nat, clears: nat)
    ensures limit * (1 + (clears + 1)) == limit * (1 + clears) + limit
    ensures limit <= limit * (1 + clears)
  {
  }

  /** Whole in-memory runs: each clear inside a window buys at most one more `limit` in it. */
  lemma {:induction false} ClearsMultiplyTheBound(run: Run, latest: nat, limit: nat, window: nat, a: int)
    requires InOrder(run, latest) && window > 0
    ensures InWindow(RunLog(run, limit, window), a, window) <= limit * (1 + ClearsIn(run, a, window))
  {
    MemWindowBound(run.calls, latest, limit, window, a);
    OneMoreTime(limit, ClearsIn(run, a, window));
    if run.Cleared? {
      var older, current := RunLog(run.past, limit, window), MemLog(run.calls, limit, window);
      InWindowJoin(older, current, a, window);
      ClearsMultiplyTheBound(run.past, run.clearedAt, limit, window, a);
      OneMoreTime(limit, ClearsIn(run.past, a, window));
      RunLogUpTo(run.past, limit, window, run.clearedAt);
      if run.clearedAt < a {
        InWindowOutside(older, a, window);
      } else if a + window <= run.clearedAt {
        LogNotBefore(run.calls, limit, window, run.clearedAt);
        InWindowOutside(current, a, window);
      }
    }
  }

  /** The extra `limit` is real: one disconnect between two bursts of the same instant admits all
      2·limit calls. */
  lemma ReconnectResetsTheQuota(limit: nat, window: nat)
    requires window > 0
    ensures var burst := Burst(NoCalls, 0, limit);
      var run := Cleared(Open(burst), 0, burst);
      && InOrder(run, 0) && InWindow(RunLog(run, limit, window), 0, window) == 2 * limit
  {
    var burst := Burst(NoCalls, 0, limit);
    QuietRun(0, limit, window, 0);
    BurstOnQuiet(Open(NoCalls), 0, limit, window, 0);
    ClearKeeps(Open(burst), 0, limit, window);
    BurstOnQuiet(Cleared(Open(burst), 0, NoCalls), 0, limit, window, 0);
  }

  // ----- when clears let the plain limit be exceeded -----

  function ClearTimes(run: Run): seq<nat> {
    if run.Open? then [] else ClearTimes(run.past) + [run.clearedAt]
  }

  predicate NondecreasingTo(times: seq<nat>, latest: nat) {
    times == []
    || (times[|times| - 1] <= latest && NondecreasingTo(times[..|times| - 1], times[|times| - 1]))
  }

  /** A run with clears at `clears` that is quiet except for a burst of `limit` calls on either side of the
      k-th of them, at its own instant. */
  function BurstsAround(clears: seq<nat>, k: nat, limit: nat): Run {
    if clears == [] then Open(NoCalls)
    else
      var n := |clears| - 1;
      var past, burst := BurstsAround(clears[..n], k, limit), Burst(NoCalls, clears[n], limit);
      if n == k then Cleared(WithCalls(past, burst), clears[n], burst) else Cleared(past, clears[n], NoCalls)
  }

  /** A burst on an untouched quota is admitted whole. */
  lemma BurstOnQuiet(run: Run, t: nat, limit: nat, window: nat, a: int)
    requires run.calls.NoCalls? && window > 0 && InOrder(run, t)
    ensures var after := WithCalls(run, Burst(NoCalls, t, limit));
      && InOrder(after, t)
      && InWindow(RunLog(after, limit, window), a, window)
         == InWindow(RunLog(run, limit, window), a, window) + if a <= t < a + window then limit else 0
  {
    var burst := Burst(NoCalls, t, limit);
    EmptyLogs(limit, window);
    FirstBurstAdmitted(t, limit, limit, window);
    BurstCounts(NoCalls, t, limit, 0, a, window);
    if run.Cleared? {
      BurstNotBefore(t, limit, run.clearedAt);
      assert RunLog(run, limit, window) == RunLog(run.past, limit, window) + [] == RunLog(run.past, limit, window);
      InWindowJoin(RunLog(run.past, limit, window), MemLog(burst, limit, window), a, window);
    }
  }

  lemma {:induction false} BurstNotBefore(t: nat, n: nat, from: nat)
    requires from <= t
    ensures NotBefore(Burst(NoCalls, t, n), from)
  {
    if n > 0 {
      BurstNotBefore(t, n - 1, from);
    }
  }

  lemma ClearKeeps(run: Run, t: nat, limit: nat, window: nat)
    requires InOrder(run, t)
    ensures InOrder(Cleared(run, t, NoCalls), t)
    ensures RunLog(Cleared(run, t, NoCalls), limit, window) == RunLog(run, limit, window)
  {
    assert RunLog(run, limit, window) + [] == RunLog(run, limit, window);
  }

  lemma InOrderLater(run: Run, latest: nat, later: nat)
    requires InOrder(run, latest) && latest <= later
    ensures InOrder(run, later)
  {
    ClockedLater(run.calls, latest, later);
  }

  lemma {:induction false} BurstsAroundCount(clears: seq<nat>, k: nat, latest: nat, limit: nat, window: nat, a: int)
    requires NondecreasingTo(clears, latest) && window > 0
    requires k < |clears| ==> a <= clears[k] < a + window
    ensures var run := BurstsAround(clears, k, limit);
      && InOrder(run, latest) && ClearTimes(run) == clears
      && (|clears| <= k ==> run.calls.NoCalls?)
      && InWindow(RunLog(run, limit, window), a, window) == if k < |clears| then 2 * limit else 0
    decreases |clears|
  {
    hide Burst, InWindow, RunLog, InOrder, MemLog;
    if clears == [] {
      QuietRun(latest, limit, window, a);
    } else {
      var n := |clears| - 1;
      var t, past := clears[n], BurstsAround(clears[..n], k, limit);
      BurstsAroundCount(clears[..n], k, t, limit, window, a);
      if n == k {
        BurstOnQuiet(past, t, limit, window, a);
        var before := WithCalls(past, Burst(NoCalls, t, limit));
        ClearKeeps(before, t, limit, window);
        BurstOnQuiet(Cleared(before, t, NoCalls), t, limit, window, a);
      } else {
        ClearKeeps(past, t, limit, window);
      }
      InOrderLater(BurstsAround(clears, k, limit), t, latest);
    }
  }

  lemma QuietRun(latest: nat, limit: nat, window: nat, a: int)
    ensures InOrder(Open(NoCalls), latest) && InWindow(RunLog(Open(NoCalls), limit, window), a, window) == 0
  {}

  predicate Falls(times: seq<nat>, a: int, window: nat) {
    exists k :: 0 <= k < |times| && a <= times[k] < a + window
  }

  lemma {:induction false} NoClearNoCount(run: Run, a: int, window: nat)
    ensures ClearsIn(run, a, window) == 0 <==> !Falls(ClearTimes(run), a, window)
  {
    if run.Cleared? {
      NoClearNoCount(run.past, a, window);
      var past, all := ClearTimes(run.past), ClearTimes(run);
      assert all[|past|] == run.clearedAt && forall k :: 0 <= k < |past| ==> all[k] == past[k];
    }
  }

  /** No run with clears at these times admits more than `limit` calls in the window from `a`. */
  ghost predicate PlainLimitHolds(clears: seq<nat>, latest: nat, limit: nat, window: nat, a: int) {
    forall run :: InOrder(run, latest) && ClearTimes(run) == clears ==>
      InWindow(RunLog(run, limit, window), a, window) <= limit
  }

  /** The plain limit holds of a window in every run with given clears if and only if no clear falls in it. */
  lemma PlainLimitHoldsIffNoClear(clears: seq<nat>, latest: nat, limit: nat, window: nat, a: int)
    requires limit > 0 && window > 0 && NondecreasingTo(clears, latest)
    ensures PlainLimitHolds(clears, latest, limit, window, a) <==> !Falls(clears, a, window)
  {
    hide InWindow, RunLog, InOrder;
    if k :| 0 <= k < |clears| && a <= clears[k] < a + window {
      BurstsAroundCount(clears, k, latest, limit, window, a);
      assert !PlainLimitHolds(clears, latest, limit, window, a) by {
        var run := BurstsAround(clears, k, limit);
        assert InWindow(RunLog(run, limit, window), a, window) > limit;
      }
    } else {
      forall run | InOrder(run, latest) && ClearTimes(run) == clears
        ensures InWindow(RunLog(run, limit, window), a, window) <= limit
      {
        NoClearNoCount(run, a, window);
        ClearsMultiplyTheBound(run, latest, limit, window, a);
      }
    }
  }
}
