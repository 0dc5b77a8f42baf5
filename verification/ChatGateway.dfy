// The limiter service, the presence service and the gateway handlers that tie them together.

module ChatGateway {
  import opened Wrappers
  import opened SlidingWindow

  type UserId = nat
  type SocketId = nat

  const SEND_RATE_LIMIT: nat := 20
  const SEND_RATE_WINDOW_MS: nat := 10_000
  const READ_RATE_LIMIT: nat := 30
  const READ_RATE_WINDOW_MS: nat := 10_000

  datatype Key = SendKey(user: UserId) | ReadKey(user: UserId)

  function Entry(store: map<UserId, seq<nat>>, user: UserId): seq<nat> {
    if user in store then store[user] else []
  }

  function KeyIn(keys: map<Key, ZSet>, key: Key): Option<ZSet> {
    if key in keys then Some(keys[key]) else None
  }

  function CallsTo(calls: map<Key, Calls>, key: Key): Calls {
    if key in calls then calls[key] else NoCalls
  }

  function Limit(key: Key): nat {
    if key.SendKey? then SEND_RATE_LIMIT else READ_RATE_LIMIT
  }

  function WindowMs(key: Key): nat {
    if key.SendKey? then SEND_RATE_WINDOW_MS else READ_RATE_WINDOW_MS
  }

  class ChatRateLimiterService {
    const redisConfigured: bool
    var sendTimestamps: map<UserId, seq<nat>>
    var readTimestamps: map<UserId, seq<nat>>
    var redis: map<Key, ZSet>          // the keys held by the Redis server
    ghost var calls: map<Key, Calls>   // every call so far; in memory, since the last clear
    ghost var clock: nat

    ghost predicate Tracks(key: Key)
      reads this
    {
      var made := CallsTo(calls, key);
      && Clocked(made, clock)
      && (redisConfigured ==> KeyIn(redis, key) == RedisStore(made, Limit(key), WindowMs(key)))
      && (!redisConfigured ==> Timestamps(key) == MemStore(made, Limit(key), WindowMs(key)))
    }

    function Timestamps(key: Key): seq<nat>
      reads this
    {
      Entry(if key.SendKey? then sendTimestamps else readTimestamps, key.user)
    }

    /** Each stored quota is what the calls behind it make it. */
    ghost predicate Valid()
      reads this
    {
      forall key: Key :: Tracks(key)
    }

    constructor (redisConfigured: bool)
      ensures Valid() && this.redisConfigured == redisConfigured
      ensures sendTimestamps == readTimestamps == map[] && redis == map[] && calls == map[]
    {
      this.redisConfigured := redisConfigured;
      sendTimestamps, readTimestamps, redis, calls, clock := map[], map[], map[], map[], 0;
    }

    /** The verdict each form owes to a call at `now`. */
    ghost predicate Admits(key: Key, now: nat)
      reads this
    {
      if redisConfigured then RedisAdmits(CallsTo(calls, key), now, Limit(key), WindowMs(key))
      else MemAdmits(CallsTo(calls, key), now, Limit(key), WindowMs(key))
    }

    method ConsumeInMemory(store: map<UserId, seq<nat>>, user: UserId, limit: nat, windowMs: nat, now: nat)
      returns (next: map<UserId, seq<nat>>, ok: bool)
      ensures next == store[user := MemConsume(Entry(store, user), now, limit, windowMs).0]
      ensures ok == MemConsume(Entry(store, user), now, limit, windowMs).1
    {
      var timestamps := Live(Entry(store, user), now, windowMs);
      timestamps := timestamps + [now];
      next := store[user := timestamps];
      ok := |timestamps| <= limit;
    }

    method ConsumeRedis(key: Key, limit: nat, windowMs: nat, now: nat) returns (ok: bool)
      modifies this`redis
      ensures (KeyIn(redis, key), ok) == RedisConsume(old(KeyIn(redis, key)), now, limit, windowMs)
      ensures forall k :: k != key ==> KeyIn(redis, k) == old(KeyIn(redis, k))
    {
      var scores := Live(Present(KeyIn(redis, key), now), now, windowMs);
      ok := |scores| < limit;
      if ok {
        redis := redis[key := ZSet(scores + [now], now + windowMs)];
      } else if scores == [] {
        redis := redis - {key};
      } else {
        redis := redis[key := redis[key].(scores := scores)];
      }
    }

    /** Both quota methods: the answer is the promised one, and only this user's own quota moves. */
    method Consume(key: Key, now: nat) returns (ok: bool)
      requires Valid() && clock <= now
      modifies this
      ensures Valid() && clock == now
      ensures ok == old(Admits(key, now))
      ensures calls == old(calls)[key := Then(old(CallsTo(calls, key)), now)]
      ensures redisConfigured ==> sendTimestamps == old(sendTimestamps) && readTimestamps == old(readTimestamps)
      ensures !redisConfigured ==> key.user in if key.SendKey? then sendTimestamps else readTimestamps
      ensures sendTimestamps.Keys <= old(sendTimestamps.Keys) + {key.user}
      ensures readTimestamps.Keys <= old(readTimestamps.Keys) + {key.user}
    {
      ghost var before, earlier := CallsTo(calls, key), clock;
      assert Tracks(key);
      ClockedLater(before, clock, now);
      if redisConfigured {
        RedisStoreRefines(before, now, Limit(key), WindowMs(key));
        ok := ConsumeRedis(key, Limit(key), WindowMs(key), now);
      } else {
        MemStoreRefines(before, now, Limit(key), WindowMs(key));
        if key.SendKey? {
          sendTimestamps, ok := ConsumeInMemory(sendTimestamps, key.user, SEND_RATE_LIMIT, SEND_RATE_WINDOW_MS, now);
        } else {
          readTimestamps, ok := ConsumeInMemory(readTimestamps, key.user, READ_RATE_LIMIT, READ_RATE_WINDOW_MS, now);
        }
      }
      calls := calls[key := Then(before, now)];
      clock := now;
      forall k: Key ensures Tracks(k) {
        assert old(Tracks(k));
        if k != key {
          ClockedLater(CallsTo(calls, k), earlier, now);
        }
      }
    }

    /** Forgets the in-memory quotas of one user; with Redis configured it changes no quota. */
    method ClearInMemoryQuota(user: UserId)
      requires Valid()
      modifies this
      ensures Valid() && clock == old(clock)
      ensures sendTimestamps == old(sendTimestamps) - {user} && readTimestamps == old(readTimestamps) - {user}
      ensures redis == old(redis)
      ensures calls == if redisConfigured then old(calls) else old(calls) - {SendKey(user), ReadKey(user)}
    {
      sendTimestamps := sendTimestamps - {user};
      readTimestamps := readTimestamps - {user};
      if !redisConfigured {
        calls := calls - {SendKey(user), ReadKey(user)};
      }
      forall k: Key ensures Tracks(k) {
        assert old(Tracks(k));
        assert k.user == user ==> k == SendKey(user) || k == ReadKey(user);
      }
    }
  }

  class ChatPresenceService {
    var socketsByUser: map<UserId, set<SocketId>>

    ghost predicate Valid()
      reads this
    {
      forall user :: user in socketsByUser ==> socketsByUser[user] != {}
    }

    function Sockets(user: UserId): set<SocketId>
      reads this
    {
      if user in socketsByUser then socketsByUser[user] else {}
    }

    constructor ()
      ensures Valid() && socketsByUser == map[]
    {
      socketsByUser := map[];
    }

    method AddSocket(user: UserId, socket: SocketId) returns (wasOffline: bool)
      requires Valid()
      modifies this
      ensures Valid() && wasOffline == (old(Sockets(user)) == {})
      ensures socketsByUser == old(socketsByUser)[user := old(Sockets(user)) + {socket}]
    {
      var sockets := if user in socketsByUser then socketsByUser[user] else {};
      wasOffline := |sockets| == 0;
      sockets := sockets + {socket};
      socketsByUser := socketsByUser[user := sockets];
    }

    /** True exactly when the user was online and this was the last socket; the user's entry is then
        gone. */
    method RemoveSocket(user: UserId, socket: SocketId) returns (wentOffline: bool)
      requires Valid()
      modifies this
      ensures Valid()
      ensures wentOffline <==> old(Sockets(user)) == {socket}
      ensures Sockets(user) == old(Sockets(user)) - {socket}
      ensures socketsByUser - {user} == old(socketsByUser) - {user}
    {
      if user !in socketsByUser {
        return false;
      }
      var sockets := socketsByUser[user] - {socket};
      if |sockets| == 0 {
        assert sockets == {};
        assert socketsByUser[user] == {socket};
        socketsByUser := socketsByUser - {user};
        return true;
      }
      socketsByUser := socketsByUser[user := sockets];
      assert sockets != {};
      return false;
    }
  }

  // ---- One user's quota across connections, in memory ----

  datatype Event = Connect(at: nat, socket: SocketId) | Disconnect(at: nat, socket: SocketId) | Use(at: nat)

  /** The user's sockets, and the calls on one quota with the clears between them. */
  datatype Session = Session(sockets: set<SocketId>, run: Run)

  predicate IsLast(s: Session, e: Event) {
    e.Disconnect? && s.sockets == {e.socket}
  }

  function Advance(s: Session, e: Event): Session {
    match e
    case Connect(_, socket) => s.(sockets := s.sockets + {socket})
    case Disconnect(at, socket) =>
      Session(s.sockets - {socket}, if IsLast(s, e) then Cleared(s.run, at, NoCalls) else s.run)
    case Use(at) => s.(run := WithCalls(s.run, Then(s.run.calls, at)))
  }

  function AdvanceAll(events: seq<Event>): Session {
    if events == [] then Session({}, Open(NoCalls))
    else Advance(AdvanceAll(events[..|events| - 1]), events[|events| - 1])
  }

  predicate InTime(events: seq<Event>, latest: nat) {
    events == [] || (events[|events| - 1].at <= latest && InTime(events[..|events| - 1], events[|events| - 1].at))
  }

  /** How many times in one window the user's last socket went. */
  function LastDisconnects(events: seq<Event>, a: int, window: nat): nat {
    if events == [] then 0
    else
      var before, e := events[..|events| - 1], events[|events| - 1];
      LastDisconnects(before, a, window) + if IsLast(AdvanceAll(before), e) && a <= e.at < a + window then 1 else 0
  }

  lemma {:induction false} SessionRun(events: seq<Event>, latest: nat, a: int, window: nat)
    requires InTime(events, latest)
    ensures InOrder(AdvanceAll(events).run, latest)
    ensures ClearsIn(AdvanceAll(events).run, a, window) == LastDisconnects(events, a, window)
    decreases |events|
  {
    if events != [] {
      var before, e := events[..|events| - 1], events[|events| - 1];
      SessionRun(before, e.at, a, window);
      Later(AdvanceAll(before).run, e.at, latest);
    }
  }

  lemma Later(run: Run, latest: nat, later: nat)
    requires InOrder(run, latest) && latest <= later
    ensures InOrder(run, later)
  {
    ClockedLater(run.calls, latest, later);
  }

  /** Over any sequence of connections, disconnections and calls of one user, no window holds more admissions
      than `limit` times one plus the number of times the last socket went in it. */
  lemma ReconnectingMultipliesTheBound(events: seq<Event>, latest: nat, limit: nat, window: nat, a: int)
    requires InTime(events, latest) && window > 0
    ensures InWindow(RunLog(AdvanceAll(events).run, limit, window), a, window)
            <= limit * (1 + LastDisconnects(events, a, window))
  {
    SessionRun(events, latest, a, window);
    ClearsMultiplyTheBound(AdvanceAll(events).run, latest, limit, window, a);
  }

  // ---- When the plain limit holds all the same ----

  /** The connections and disconnections alone. */
  function Connections(events: seq<Event>): seq<Event> {
    if events == [] then []
    else
      var before, e := Connections(events[..|events| - 1]), events[|events| - 1];
      if e.Use? then before else before + [e]
  }

  function Admissions(events: seq<Event>, limit: nat, window: nat, a: int): nat {
    InWindow(RunLog(AdvanceAll(events).run, limit, window), a, window)
  }

  /** Every call is made while some socket of the user is connected. */
  predicate UsedWhileConnected(events: seq<Event>) {
    events == []
    || (UsedWhileConnected(events[..|events| - 1])
        && (events[|events| - 1].Use? ==> AdvanceAll(events[..|events| - 1]).sockets != {}))
  }

  /** In one window the user's last socket goes and a socket connects again. */
  predicate Reconnects(events: seq<Event>, a: int, window: nat) {
    if events == [] then false
    else
      var before, e := events[..|events| - 1], events[|events| - 1];
      || Reconnects(before, a, window)
      || (e.Connect? && a <= e.at < a + window && LastDisconnects(before, a, window) > 0)
  }

  lemma OneMore(events: seq<Event>, e: Event)
    ensures (events + [e])[..|events|] == events && (events + [e])[|events|] == e
    ensures AdvanceAll(events + [e]) == Advance(AdvanceAll(events), e)
  {
    assert (events + [e])[..|events|] == events;
  }

  /** Calls change neither who is connected nor when the last socket goes. */
  lemma {:induction false} ConnectionsDecide(events: seq<Event>, a: int, window: nat)
    ensures AdvanceAll(events).sockets == AdvanceAll(Connections(events)).sockets
    ensures LastDisconnects(events, a, window) == LastDisconnects(Connections(events), a, window)
    ensures Reconnects(events, a, window) <==> Reconnects(Connections(events), a, window)
    decreases |events|
  {
    if events != [] {
      var before, e := events[..|events| - 1], events[|events| - 1];
      ConnectionsDecide(before, a, window);
      OneMore(Connections(before), e);
    }
  }

  /** Once the last socket has gone in the window, nobody is connected while the window lasts unless somebody
      reconnects in it. */
  lemma {:induction false} GoneForTheWindow(events: seq<Event>, latest: nat, a: int, window: nat)
    requires InTime(events, latest) && LastDisconnects(events, a, window) > 0 && !Reconnects(events, a, window)
    ensures AdvanceAll(events).sockets == {} || a + window <= latest
    decreases |events|
  {
    var before, e := events[..|events| - 1], events[|events| - 1];
    if LastDisconnects(before, a, window) > 0 {
      GoneForTheWindow(before, e.at, a, window);
      LateEnough(before, e.at, a, window);
    }
  }

  lemma {:induction false} LateEnough(events: seq<Event>, latest: nat, a: int, window: nat)
    requires InTime(events, latest) && LastDisconnects(events, a, window) > 0
    ensures a <= latest
    decreases |events|
  {
    var before, e := events[..|events| - 1], events[|events| - 1];
    if LastDisconnects(before, a, window) > 0 {
      LateEnough(before, e.at, a, window);
    }
  }

  lemma UseCounts(s: Session, at: nat, limit: nat, window: nat, a: int)
    ensures InWindow(RunLog(Advance(s, Use(at)).run, limit, window), a, window)
            <= InWindow(RunLog(s.run, limit, window), a, window) + if a <= at < a + window then 1 else 0
  {
    var next := Then(s.run.calls, at);
    InWindowAppend(MemLog(s.run.calls, limit, window), at, a, window);
    if s.run.Cleared? {
      InWindowJoin(RunLog(s.run.past, limit, window), MemLog(s.run.calls, limit, window), a, window);
      InWindowJoin(RunLog(s.run.past, limit, window), MemLog(next, limit, window), a, window);
    }
  }

  lemma OthersDoNotCount(s: Session, e: Event, limit: nat, window: nat)
    requires !e.Use?
    ensures RunLog(Advance(s, e).run, limit, window) == RunLog(s.run, limit, window)
  {
    assert RunLog(s.run, limit, window) + [] == RunLog(s.run, limit, window);
  }

  /** Without a reconnection in the window the plain limit holds of every user who calls while connected. */
  lemma {:induction false} NoReconnectionNoExcess(events: seq<Event>, latest: nat, limit: nat, window: nat, a: int)
    requires InTime(events, latest) && window > 0
    requires UsedWhileConnected(events) && !Reconnects(events, a, window)
    ensures Admissions(events, limit, window, a) <= limit
    decreases |events|
  {
    if LastDisconnects(events, a, window) == 0 {
      ReconnectingMultipliesTheBound(events, latest, limit, window, a);
    } else {
      var before, e := events[..|events| - 1], events[|events| - 1];
      NoReconnectionNoExcess(before, e.at, limit, window, a);
      if e.Use? {
        GoneForTheWindow(before, e.at, a, window);
        UseCounts(AdvanceAll(before), e.at, limit, window, a);
      } else {
        OthersDoNotCount(AdvanceAll(before), e, limit, window);
      }
    }
  }

  // ---- The calls that exceed it ----

  function Uses(at: nat, n: nat): seq<Event> {
    if n == 0 then [] else Uses(at, n - 1) + [Use(at)]
  }

  lemma {:induction false} AfterUses(events: seq<Event>, at: nat, n: nat, latest: nat)
    requires InTime(events, at) && at <= latest && AdvanceAll(events).run.calls.NoCalls?
    ensures var all := events + Uses(at, n); var s := AdvanceAll(events);
      && AdvanceAll(all) == s.(run := WithCalls(s.run, Burst(NoCalls, at, n)))
      && InTime(all, at) && InTime(all, latest) && Connections(all) == Connections(events)
      && (UsedWhileConnected(events) && s.sockets != {} ==> UsedWhileConnected(all))
    decreases n
  {
    if n == 0 {
      assert events + [] == events;
      InTimeLater(events, at, latest);
    } else {
      AfterUses(events, at, n - 1, at);
      assert events + Uses(at, n) == (events + Uses(at, n - 1)) + [Use(at)];
      OneMore(events + Uses(at, n - 1), Use(at));
    }
  }

  lemma InTimeLater(events: seq<Event>, latest: nat, later: nat)
    requires InTime(events, latest) && latest <= later
    ensures InTime(events, later)
  {}

  /** `conn` with a burst of `limit` calls just before its i-th event and one just after its j-th, each at that
      event's own instant. */
  function Bursts(conn: seq<Event>, i: nat, j: nat, limit: nat): seq<Event> {
    if conn == [] then []
    else
      var n := |conn| - 1;
      var e, before := conn[n], Bursts(conn[..n], i, j, limit);
      (if n == i then before + Uses(e.at, limit) else before) + [e] + if n == j then Uses(e.at, limit) else []
  }

  /** What the bursts have come to after the first `n` events: none yet, one, or both. */
  function Bursted(n: nat, i: nat, j: nat, limit: nat): nat {
    if n <= i then 0 else if n <= j then limit else 2 * limit
  }

  predicate NoUses(conn: seq<Event>) {
    forall k :: 0 <= k < |conn| ==> !conn[k].Use?
  }

  /** A place to burst: the i-th event is a last disconnect, the j-th the same or a later one, both in the
      window. */
  predicate IsGap(conn: seq<Event>, i: nat, j: nat, a: int, window: nat) {
    && i <= j
    && (i < |conn| ==> IsLast(AdvanceAll(conn[..i]), conn[i]) && a <= conn[i].at < a + window)
    && (j < |conn| ==> a <= conn[j].at < a + window)
  }

  predicate IsReconnection(conn: seq<Event>, j: nat) {
    j < |conn| ==> conn[j].Connect?
  }

  /** `events` are the connections `conn` with calls that come to `total` admissions in the window; if `quiet`,
      none since the last clear. */
  ghost predicate Tally(events: seq<Event>, conn: seq<Event>, latest: nat, total: nat, quiet: bool,
                        limit: nat, window: nat, a: int)
  {
    var s := AdvanceAll(events);
    && Connections(events) == conn && s.sockets == AdvanceAll(conn).sockets
    && InTime(events, latest) && InOrder(s.run, latest)
    && (quiet ==> s.run.calls.NoCalls?)
    && Admissions(events, limit, window, a) == total
  }

  lemma TallyLater(events: seq<Event>, conn: seq<Event>, latest: nat, later: nat, total: nat, quiet: bool,
                   needed: bool, limit: nat, window: nat, a: int)
    requires Tally(events, conn, latest, total, quiet, limit, window, a) && latest <= later && (needed ==> quiet)
    ensures Tally(events, conn, later, total, needed, limit, window, a)
  {
    InTimeLater(events, latest, later);
    InOrderLater(AdvanceAll(events).run, latest, later);
  }

  lemma TallyUses(events: seq<Event>, conn: seq<Event>, at: nat, total: nat, limit: nat, window: nat, a: int)
    requires Tally(events, conn, at, total, true, limit, window, a) && a <= at < a + window
    ensures Tally(events + Uses(at, limit), conn, at, total + limit, false, limit, window, a)
    ensures UsedWhileConnected(events) && AdvanceAll(conn).sockets != {}
            ==> UsedWhileConnected(events + Uses(at, limit))
  {
    hide InWindow, RunLog, InOrder;
    AfterUses(events, at, limit, at);
    BurstOnQuiet(AdvanceAll(events).run, at, limit, window, a);
  }

  lemma TallyEvent(events: seq<Event>, conn: seq<Event>, e: Event, total: nat, quiet: bool,
                   limit: nat, window: nat, a: int)
    requires Tally(events, conn, e.at, total, quiet, limit, window, a) && !e.Use?
    ensures Tally(events + [e], conn + [e], e.at, total, quiet || IsLast(AdvanceAll(conn), e), limit, window, a)
    ensures UsedWhileConnected(events) ==> UsedWhileConnected(events + [e])
  {
    hide InWindow, RunLog;
    OneMore(events, e);
    OneMore(conn, e);
    OthersDoNotCount(AdvanceAll(events), e, limit, window);
    ClearKeeps(AdvanceAll(events).run, e.at, limit, window);
  }

  lemma {:induction false} BurstsTally(conn: seq<Event>, i: nat, j: nat, latest: nat, limit: nat, window: nat, a: int)
    requires NoUses(conn) && InTime(conn, latest) && IsGap(conn, i, j, a, window) && window > 0
    ensures Tally(Bursts(conn, i, j, limit), conn, latest, Bursted(|conn|, i, j, limit), |conn| <= j, limit, window, a)
    ensures IsReconnection(conn, j) ==> UsedWhileConnected(Bursts(conn, i, j, limit))
    decreases |conn|
  {
    hide Tally, UsedWhileConnected, Uses;
    if conn == [] {
      NothingTallied(latest, limit, window, a);
    } else {
      var n := |conn| - 1;
      var e, before := conn[n], Bursts(conn[..n], i, j, limit);
      if i < n {
        assert conn[..n][..i] == conn[..i];
      }
      BurstsTally(conn[..n], i, j, e.at, limit, window, a);
      var total := Bursted(n, i, j, limit);
      var first := if n == i then before + Uses(e.at, limit) else before;
      if n == i {
        TallyUses(before, conn[..n], e.at, total, limit, window, a);
      }
      var sum, quiet := if n == i then total + limit else total, n != i && n <= j;
      TallyEvent(first, conn[..n], e, sum, quiet, limit, window, a);
      assert conn[..n] + [e] == conn;
      if n == j {
        TallyUses(first + [e], conn, e.at, sum, limit, window, a);
        Connected(conn);
        TallyLater(first + [e] + Uses(e.at, limit), conn, e.at, latest, sum + limit, false, false, limit, window, a);
        assert Bursts(conn, i, j, limit) == first + [e] + Uses(e.at, limit);
      } else {
        TallyLater(first + [e], conn, e.at, latest, sum, quiet || IsLast(AdvanceAll(conn[..n]), e), n + 1 <= j,
                   limit, window, a);
        assert Bursts(conn, i, j, limit) == first + [e];
      }
    }
  }

  lemma NothingTallied(latest: nat, limit: nat, window: nat, a: int)
    ensures Tally([], [], latest, 0, true, limit, window, a) && UsedWhileConnected([])
  {
    QuietRun(latest, limit, window, a);
  }

  lemma Connected(conn: seq<Event>)
    requires conn != []
    ensures conn[|conn| - 1].Connect? ==> AdvanceAll(conn).sockets != {}
  {}

  // ---- The exact conditions ----

  /** Where a last disconnect falls in the window. */
  lemma {:induction false} LastDisconnectAt(conn: seq<Event>, a: int, window: nat) returns (i: nat)
    requires LastDisconnects(conn, a, window) > 0
    ensures i < |conn| && IsLast(AdvanceAll(conn[..i]), conn[i]) && a <= conn[i].at < a + window
    decreases |conn|
  {
    var n := |conn| - 1;
    if LastDisconnects(conn[..n], a, window) > 0 {
      i := LastDisconnectAt(conn[..n], a, window);
      assert conn[..n][..i] == conn[..i];
    } else {
      i := n;
    }
  }

  lemma {:induction false} ReconnectionAt(conn: seq<Event>, a: int, window: nat) returns (i: nat, j: nat)
    requires Reconnects(conn, a, window)
    ensures i < j < |conn| && IsGap(conn, i, j, a, window) && conn[j].Connect?
    decreases |conn|
  {
    var n := |conn| - 1;
    if Reconnects(conn[..n], a, window) {
      i, j := ReconnectionAt(conn[..n], a, window);
    } else {
      i := LastDisconnectAt(conn[..n], a, window);
      j := n;
    }
    assert conn[..n][..i] == conn[..i];
  }

  /** Whatever calls are made among these connections, no more than `limit` are admitted in the window. */
  ghost predicate LimitHolds(conn: seq<Event>, latest: nat, limit: nat, window: nat, a: int) {
    forall events :: InTime(events, latest) && Connections(events) == conn ==>
      Admissions(events, limit, window, a) <= limit
  }

  /** ... as long as they are made while connected. */
  ghost predicate LimitHoldsConnected(conn: seq<Event>, latest: nat, limit: nat, window: nat, a: int) {
    forall events :: InTime(events, latest) && Connections(events) == conn && UsedWhileConnected(events) ==>
      Admissions(events, limit, window, a) <= limit
  }

  /** The plain limit holds of a window, whatever calls are made, if and only if the user's last socket does not
      go in it. */
  lemma LimitHoldsIffNobodyLeaves(conn: seq<Event>, latest: nat, limit: nat, window: nat, a: int)
    requires NoUses(conn) && InTime(conn, latest) && limit > 0 && window > 0
    ensures LimitHolds(conn, latest, limit, window, a) <==> LastDisconnects(conn, a, window) == 0
  {
    hide Admissions, Reconnects, LastDisconnects;
    if LastDisconnects(conn, a, window) == 0 {
      forall events | InTime(events, latest) && Connections(events) == conn
        ensures Admissions(events, limit, window, a) <= limit
      {
        ConnectionsDecide(events, a, window);
        BoundOf(events, latest, limit, window, a);
      }
    } else {
      var i := LastDisconnectAt(conn, a, window);
      BurstsTally(conn, i, i, latest, limit, window, a);
      assert Admissions(Bursts(conn, i, i, limit), limit, window, a) > limit;
    }
  }

  lemma BoundOf(events: seq<Event>, latest: nat, limit: nat, window: nat, a: int)
    requires InTime(events, latest) && window > 0 && LastDisconnects(events, a, window) == 0
    ensures Admissions(events, limit, window, a) <= limit
  {
    ReconnectingMultipliesTheBound(events, latest, limit, window, a);
  }

  /** For calls made while connected it holds if and only if the user does not reconnect in the window after the
      last socket has gone in it. */
  lemma LimitHoldsConnectedIffNoReconnection(conn: seq<Event>, latest: nat, limit: nat, window: nat, a: int)
    requires NoUses(conn) && InTime(conn, latest) && limit > 0 && window > 0
    ensures LimitHoldsConnected(conn, latest, limit, window, a) <==> !Reconnects(conn, a, window)
  {
    hide Admissions, Reconnects, LastDisconnects;
    if Reconnects(conn, a, window) {
      var i, j := ReconnectionAt(conn, a, window);
      BurstsTally(conn, i, j, latest, limit, window, a);
      assert Admissions(Bursts(conn, i, j, limit), limit, window, a) > limit;
    } else {
      forall events | InTime(events, latest) && Connections(events) == conn && UsedWhileConnected(events)
        ensures Admissions(events, limit, window, a) <= limit
      {
        ConnectionsDecide(events, a, window);
        NoReconnectionNoExcess(events, latest, limit, window, a);
      }
    }
  }

  /** The failing sequence: connect, `limit` calls, disconnect, connect, `limit` calls, all at one instant. All
      2·limit calls are admitted. */
  lemma ReconnectingBypassesTheLimit(limit: nat, window: nat)
    requires window > 0
    ensures var events := [Connect(0, 1)] + Uses(0, limit) + [Disconnect(0, 1)] + [Connect(0, 1)] + Uses(0, limit);
      && InTime(events, 0) && UsedWhileConnected(events)
      && Admissions(events, limit, window, 0) == 2 * limit
  {
    hide Tally, Uses, UsedWhileConnected;
    var c, d := Connect(0, 1), Disconnect(0, 1);
    NothingTallied(0, limit, window, 0);
    assert [] + [c] == [c];
    TallyEvent([], [], c, 0, true, limit, window, 0);
    assert AdvanceAll([c]).sockets == {1} by { OneMore([], c); }
    TallyUses([c], [c], 0, 0, limit, window, 0);
    var used := [c] + Uses(0, limit);
    TallyEvent(used, [c], d, limit, false, limit, window, 0);
    TallyEvent(used + [d], [c] + [d], c, limit, true, limit, window, 0);
    assert AdvanceAll([c] + [d] + [c]).sockets != {} by { OneMore([c] + [d], c); }
    TallyUses(used + [d] + [c], [c] + [d] + [c], 0, limit, limit, window, 0);
    Tallied(used + [d] + [c] + Uses(0, limit), [c] + [d] + [c], 0, 2 * limit, false, limit, window, 0);
  }

  lemma Tallied(events: seq<Event>, conn: seq<Event>, latest: nat, total: nat, quiet: bool,
                limit: nat, window: nat, a: int)
    requires Tally(events, conn, latest, total, quiet, limit, window, a)
    ensures InTime(events, latest) && Connections(events) == conn && Admissions(events, limit, window, a) == total
  {}

  class Gateway {
    const presenceService: ChatPresenceService
    const rateLimiter: ChatRateLimiterService
    ghost var runs: map<Key, Run>   // in memory, every call so far and the clears between them

    ghost predicate Valid()
      reads this, presenceService, rateLimiter
    {
      && presenceService.Valid() && rateLimiter.Valid()
      && (!rateLimiter.redisConfigured ==> forall key: Key :: InStep(key))
    }

    /** The calls since the last clear are those the limiter's quota stands for. */
    ghost predicate InStep(key: Key)
      reads this, rateLimiter
    {
      RunOf(key).calls == CallsTo(rateLimiter.calls, key)
    }

    ghost function RunOf(key: Key): Run
      reads this
    {
      if key in runs then runs[key] else Open(NoCalls)
    }

    ghost function SessionOf(key: Key): Session
      reads this, presenceService
    {
      Session(presenceService.Sockets(key.user), RunOf(key))
    }

    /** The fallback does not grow past the users online. */
    ghost predicate OnlyConnectedHaveQuotas()
      reads this, presenceService, rateLimiter
    {
      && rateLimiter.sendTimestamps.Keys <= presenceService.socketsByUser.Keys
      && rateLimiter.readTimestamps.Keys <= presenceService.socketsByUser.Keys
    }

    constructor (redisConfigured: bool)
      ensures Valid() && OnlyConnectedHaveQuotas() && fresh(presenceService) && fresh(rateLimiter)
      ensures forall key: Key :: SessionOf(key) == AdvanceAll([])
    {
      presenceService := new ChatPresenceService();
      rateLimiter := new ChatRateLimiterService(redisConfigured);
      runs := map[];
    }

    /** The handshake step by step: `auth` is what authentication yields, `joins` whether joining the user's
        room works, `announces` whether a broadcast does. A socket refused before it is added changes nothing;
        one disconnected because its broadcast failed stays in the presence set until its own disconnect. */
    method HandleConnection(auth: Option<UserId>, joins: bool, announces: bool, socket: SocketId, ghost now: nat)
      returns (open: bool)
      requires Valid()
      modifies presenceService
      ensures Valid() && (old(OnlyConnectedHaveQuotas()) ==> OnlyConnectedHaveQuotas())
      ensures open <==> auth.Some? && joins && (announces || old(presenceService.Sockets(auth.value)) != {})
      ensures forall key: Key ::
        SessionOf(key) == if auth == Some(key.user) && joins then Advance(old(SessionOf(key)), Connect(now, socket))
                          else old(SessionOf(key))
    {
      if auth.None? || !joins {
        return false;
      }
      var justCameOnline := presenceService.AddSocket(auth.value, socket);
      open := !justCameOnline || announces;
    }

    /** The socket leaves the presence set. When it was the user's last, and only then, the in-memory quotas of
        that user are forgotten; nobody else's is touched, and Redis quotas never are. */
    method HandleDisconnect(auth: Option<UserId>, socket: SocketId, ghost now: nat)
      requires Valid()
      modifies this, presenceService, rateLimiter
      ensures Valid() && (old(OnlyConnectedHaveQuotas()) ==> OnlyConnectedHaveQuotas())
      ensures forall key: Key ::
        SessionOf(key) == if auth == Some(key.user) then Advance(old(SessionOf(key)), Disconnect(now, socket))
                          else old(SessionOf(key))
      ensures rateLimiter.redis == old(rateLimiter.redis)
      ensures rateLimiter.redisConfigured ==> rateLimiter.calls == old(rateLimiter.calls)
    {
      if auth.None? {
        return;
      }
      var user := auth.value;
      ghost var before := presenceService.socketsByUser;
      var justWentOffline := presenceService.RemoveSocket(user, socket);
      ghost var after := presenceService.socketsByUser;
      assert forall u :: u in before && u != user ==> u in after && after[u] == before[u] by {
        assert forall u :: u in before && u != user ==> u in before - {user};
      }
      assert forall u :: u in after && u != user ==> u in after - {user};
      if justWentOffline {
        rateLimiter.ClearInMemoryQuota(user);
        runs := runs[SendKey(user) := Cleared(RunOf(SendKey(user)), now, NoCalls)]
                    [ReadKey(user) := Cleared(RunOf(ReadKey(user)), now, NoCalls)];
        assert forall key: Key :: key.user == user ==> key == SendKey(user) || key == ReadKey(user);
      } else if user in before {
        assert presenceService.Sockets(user) != {};
      }
      forall k: Key | !rateLimiter.redisConfigured ensures InStep(k) {
        assert old(InStep(k));
      }
    }

    /** One call on a quota, by a connected user or by an event that overtakes its handshake. */
    method UseQuota(key: Key, now: nat) returns (ok: bool)
      requires Valid() && rateLimiter.clock <= now
      modifies this, rateLimiter
      ensures Valid() && ok == old(rateLimiter.Admits(key, now)) && rateLimiter.clock == now
      ensures forall k: Key ::
        SessionOf(k) == if k == key then Advance(old(SessionOf(k)), Use(now)) else old(SessionOf(k))
      ensures old(OnlyConnectedHaveQuotas()) ==>
        (OnlyConnectedHaveQuotas() <==> rateLimiter.redisConfigured || presenceService.Sockets(key.user) != {})
    {
      ok := rateLimiter.Consume(key, now);
      assert !rateLimiter.redisConfigured ==> old(InStep(key));
      runs := runs[key := WithCalls(RunOf(key), Then(RunOf(key).calls, now))];
      forall k: Key | !rateLimiter.redisConfigured ensures InStep(k) {
        assert old(InStep(k));
      }
    }

    /** `message:send`: the gateway lets it through iff fewer than 20 of the user's own earlier sends lie in the ten
        seconds before it: the admitted ones under Redis, all of them in memory. */
    method OnMessageSend(user: UserId, now: nat) returns (ok: bool)
      requires Valid() && rateLimiter.clock <= now
      modifies this, rateLimiter
      ensures Valid()
      ensures ok == if rateLimiter.redisConfigured
                    then RedisAdmits(old(CallsTo(rateLimiter.calls, SendKey(user))), now, 20, 10_000)
                    else MemAdmits(old(CallsTo(rateLimiter.calls, SendKey(user))), now, 20, 10_000)
      ensures SessionOf(SendKey(user)) == Advance(old(SessionOf(SendKey(user))), Use(now))
      ensures forall k: Key :: k != SendKey(user) ==> SessionOf(k) == old(SessionOf(k))
    {
      ok := UseQuota(SendKey(user), now);
    }

    /** `message:read` and `conversation:subscribe` share the read quota of 30 in ten seconds. */
    method OnMessageRead(user: UserId, now: nat) returns (ok: bool)
      requires Valid() && rateLimiter.clock <= now
      modifies this, rateLimiter
      ensures Valid()
      ensures ok == if rateLimiter.redisConfigured
                    then RedisAdmits(old(CallsTo(rateLimiter.calls, ReadKey(user))), now, 30, 10_000)
                    else MemAdmits(old(CallsTo(rateLimiter.calls, ReadKey(user))), now, 30, 10_000)
      ensures SessionOf(ReadKey(user)) == Advance(old(SessionOf(ReadKey(user))), Use(now))
      ensures forall k: Key :: k != ReadKey(user) ==> SessionOf(k) == old(SessionOf(k))
    {
      ok := UseQuota(ReadKey(user), now);
    }
  }
}
