// Login lockout: a failure counter and a lock, both Redis keys with a time to live.

/** The two keys of one identifier, as a function of the attempts made on it. Calls are serial: each
    attempt runs its lock check, its password check and its key updates before the next begins. */
module LockoutKeys {
  import opened Wrappers

  datatype Counter = Counter(count: nat, expiresAt: nat)

  datatype Keys = Keys(fail: Option<Counter>, lock: Option<nat>)

  /** LOGIN_LOCKOUT_MAX_ATTEMPTS, _WINDOW_SECONDS and _DURATION_SECONDS. */
  datatype Config = Config(maxAttempts: nat, window: nat, lockout: nat) {
    ghost predicate Valid() { maxAttempts > 0 && window > 0 && lockout > 0 }
  }

  datatype Attempt = Attempt(at: nat, good: bool)
  datatype Outcome = LockedOut | Refused | Accepted

  const NO_KEYS := Keys(None, None)

  predicate Locked(k: Keys, now: nat) {
    k.lock.Some? && now < k.lock.value
  }

  function FailCount(k: Keys, now: nat): nat {
    if k.fail.Some? && now < k.fail.value.expiresAt then k.fail.value.count else 0
  }

  /** INCR, EXPIRE on the first failure only, and the lock once the count reaches the maximum. */
  function AfterFailure(k: Keys, now: nat, c: Config): Keys {
    var count := FailCount(k, now) + 1;
    var expiresAt := if count == 1 then now + c.window else k.fail.value.expiresAt;
    Keys(Some(Counter(count, expiresAt)), if count >= c.maxAttempts then Some(now + c.lockout) else k.lock)
  }

  function Respond(k: Keys, a: Attempt): Outcome {
    if Locked(k, a.at) then LockedOut else if a.good then Accepted else Refused
  }

  function After(k: Keys, a: Attempt, c: Config): Keys {
    match Respond(k, a)
    case LockedOut => k
    case Accepted => NO_KEYS
    case Refused => AfterFailure(k, a.at, c)
  }

  function AfterAll(k: Keys, attempts: seq<Attempt>, c: Config): Keys
    decreases |attempts|
  {
    if attempts == [] then k else AfterAll(After(k, attempts[0], c), attempts[1..], c)
  }

  /** How many of the attempts at times in [a, a + window) are answered with `o`. */
  function Count(k: Keys, attempts: seq<Attempt>, c: Config, a: int, o: Outcome): nat
    decreases |attempts|
  {
    if attempts == [] then 0
    else
      (if a <= attempts[0].at < a + c.window && Respond(k, attempts[0]) == o then 1 else 0)
      + Count(After(k, attempts[0], c), attempts[1..], c, a, o)
  }

  predicate Clocked(attempts: seq<Attempt>, from: nat) {
    attempts == [] || (from <= attempts[0].at && Clocked(attempts[1..], attempts[0].at))
  }

  /** The most evaluated failures one window can hold. */
  function Bound(c: Config): int {
    if c.maxAttempts == 1 then 1 else 2 * c.maxAttempts - 2
  }

  // ----- the bound, when the lock outlasts the counter -----

  /** A counter that has reached the maximum never outlives its lock. */
  ghost predicate Sound(k: Keys, now: nat, c: Config) {
    k.fail.Some? ==>
      && 1 <= k.fail.value.count <= c.maxAttempts
      && k.fail.value.expiresAt <= now + c.window
      && (k.fail.value.count == c.maxAttempts ==> k.lock.Some? && k.fail.value.expiresAt <= k.lock.value)
  }

  /** Where a run stands with `n` evaluated failures in the window from `a`: none yet; a counter
      opened before the window; a counter opened in it; or locked to its end. */
  ghost predicate Phase(k: Keys, n: nat, c: Config, a: int) {
    || n == 0
    || (k.fail.Some? && 2 <= k.fail.value.count < c.maxAttempts && n <= k.fail.value.count - 1)
    || (k.fail.Some? && k.fail.value.count < c.maxAttempts && a + c.window <= k.fail.value.expiresAt
        && n <= k.fail.value.count + (if c.maxAttempts >= 2 then c.maxAttempts - 2 else 0))
    || (k.lock.Some? && a + c.window <= k.lock.value && n <= Bound(c))
  }

  lemma FailureStep(k: Keys, at: nat, n: nat, c: Config, a: int)
    requires c.Valid() && c.window <= c.lockout
    requires Sound(k, at, c) && Phase(k, n, c, a) && !Locked(k, at)
    requires a <= at < a + c.window
    ensures Sound(AfterFailure(k, at, c), at, c) && Phase(AfterFailure(k, at, c), n + 1, c, a)
  {
  }

  lemma PhaseWithinBound(k: Keys, n: nat, c: Config, a: int)
    requires c.Valid() && Phase(k, n, c, a)
    ensures n <= Bound(c)
  {
  }

  lemma {:induction false} BoundFrom(k: Keys, attempts: seq<Attempt>, now: nat, n: nat, c: Config, a: int)
    requires c.Valid() && c.window <= c.lockout
    requires Clocked(attempts, now) && Sound(k, now, c) && Phase(k, n, c, a)
    requires n > 0 ==> a <= now
    requires Count(k, attempts, c, a, Accepted) == 0
    ensures n + Count(k, attempts, c, a, Refused) <= Bound(c)
    decreases |attempts|
  {
    PhaseWithinBound(k, n, c, a);
    if attempts != [] {
      var first, rest := attempts[0], attempts[1..];
      var next := After(k, first, c);
      if first.at >= a + c.window {
        NothingLater(next, rest, first.at, c, a);
      } else if a <= first.at && Respond(k, first) == Refused {
        FailureStep(k, first.at, n, c, a);
        BoundFrom(next, rest, first.at, n + 1, c, a);
      } else {
        BoundFrom(next, rest, first.at, n, c, a);
      }
    }
  }

  lemma {:induction false} NothingLater(k: Keys, attempts: seq<Attempt>, now: nat, c: Config, a: int)
    requires Clocked(attempts, now) && a + c.window <= now
    ensures forall o :: Count(k, attempts, c, a, o) == 0
    decreases |attempts|
  {
    if attempts != [] {
      NothingLater(After(k, attempts[0], c), attempts[1..], attempts[0].at, c, a);
    }
  }

  /** When the lockout lasts at least as long as the counting window, every half-open interval of one
      window with no successful login holds at most 2·maxAttempts - 2 evaluated failures (1 when
      maxAttempts is 1). */
  lemma LockoutBound(attempts: seq<Attempt>, c: Config, a: int)
    requires c.Valid() && c.window <= c.lockout && Clocked(attempts, 0)
    requires Count(NO_KEYS, attempts, c, a, Accepted) == 0
    ensures Count(NO_KEYS, attempts, c, a, Refused) <= Bound(c)
  {
    BoundFrom(NO_KEYS, attempts, 0, 0, c, a);
  }

  // ----- bursts of failures, for the runs that meet and that break the bound -----

  function Failures(at: nat, n: nat): seq<Attempt> {
    if n == 0 then [] else [Attempt(at, false)] + Failures(at, n - 1)
  }

  /** `n` failures at one instant, none of them locked out: the maximum is reached, if at all, by the
      last. */
  lemma {:induction false} BurstOfFailures(k: Keys, at: nat, n: nat, c: Config, a: int, rest: seq<Attempt>)
    requires c.Valid() && !Locked(k, at) && n > 0 && FailCount(k, at) + n <= c.maxAttempts
    ensures var after := AfterAll(k, Failures(at, n), c);
      && after.fail == Some(Counter(FailCount(k, at) + n,
           if FailCount(k, at) > 0 then k.fail.value.expiresAt else at + c.window))
      && after.lock == (if FailCount(k, at) + n == c.maxAttempts then Some(at + c.lockout) else k.lock)
      && Count(k, Failures(at, n) + rest, c, a, Refused)
         == (if a <= at < a + c.window then n else 0) + Count(after, rest, c, a, Refused)
      && Count(k, Failures(at, n) + rest, c, a, Accepted) == Count(after, rest, c, a, Accepted)
    decreases n
  {
    var burst := Failures(at, n);
    var next := AfterFailure(k, at, c);
    assert burst[0] == Attempt(at, false) && burst[1..] == Failures(at, n - 1);
    assert (burst + rest)[0] == burst[0] && (burst + rest)[1..] == Failures(at, n - 1) + rest;
    if n > 1 {
      BurstOfFailures(next, at, n - 1, c, a, rest);
    } else {
      assert Failures(at, 0) + rest == rest;
    }
  }

  /** A failure at 0, `early` more just before the counter expires, `maxAttempts` once it has. */
  function Straddle(c: Config, early: nat, eve: nat): seq<Attempt> {
    Failures(0, 1) + (Failures(eve, early) + (Failures(c.window, c.maxAttempts) + []))
  }

  lemma {:induction false} BurstIsClocked(at: nat, n: nat, rest: seq<Attempt>, from: nat)
    requires from <= at && Clocked(rest, at)
    ensures Clocked(Failures(at, n) + rest, from)
    decreases n
  {
    if n == 0 {
      assert Failures(at, 0) + rest == rest;
    } else {
      BurstIsClocked(at, n - 1, rest, at);
      assert (Failures(at, n) + rest)[1..] == Failures(at, n - 1) + rest;
    }
  }

  lemma StraddleIsClocked(c: Config, early: nat, eve: nat)
    requires eve <= c.window
    ensures Clocked(Straddle(c, early, eve), 0)
  {
    BurstIsClocked(c.window, c.maxAttempts, [], c.window);
    BurstIsClocked(eve, early, Failures(c.window, c.maxAttempts) + [], eve);
    BurstIsClocked(0, 1, Failures(eve, early) + (Failures(c.window, c.maxAttempts) + []), 0);
  }

  /** A run that meets the bound in the window from 1. */
  function FullWindow(c: Config): seq<Attempt> {
    if c.maxAttempts <= 2 then Failures(1, c.maxAttempts) + []
    else Straddle(c, c.maxAttempts - 2, if c.window > 1 then c.window - 1 else 0)
  }

  /** The bound is met, success-free, for every configuration whose window is more than one tick. */
  lemma LockoutBoundIsTight(c: Config)
    requires c.Valid() && c.window > 1
    ensures Clocked(FullWindow(c), 0) && Count(NO_KEYS, FullWindow(c), c, 1, Accepted) == 0
    ensures Count(NO_KEYS, FullWindow(c), c, 1, Refused) == Bound(c)
  {
    if c.maxAttempts <= 2 {
      BurstIsClocked(1, c.maxAttempts, [], 0);
      BurstOfFailures(NO_KEYS, 1, c.maxAttempts, c, 1, []);
    } else {
      var eve, early := c.window - 1, c.maxAttempts - 2;
      var late := Failures(c.window, c.maxAttempts) + [];
      StraddleIsClocked(c, early, eve);
      BurstOfFailures(NO_KEYS, 0, 1, c, 1, Failures(eve, early) + late);
      var k1 := AfterAll(NO_KEYS, Failures(0, 1), c);
      BurstOfFailures(k1, eve, early, c, 1, late);
      var k2 := AfterAll(k1, Failures(eve, early), c);
      BurstOfFailures(k2, c.window, c.maxAttempts, c, 1, []);
    }
  }

  /** With a shorter lockout the bound is broken, for every limit: the early burst locks the account,
      the lock ends before the window does, and a full second burst is evaluated. */
  lemma ShortLockoutBreaksTheBound(c: Config)
    requires c.Valid() && c.lockout < c.window
    ensures var early := c.maxAttempts - 1;
      var run := if c.maxAttempts == 1 then Failures(0, 1) + (Failures(c.lockout, 1) + []) else Straddle(c, early, 1);
      var a := if c.maxAttempts == 1 then 0 else 1;
      && Clocked(run, 0) && Count(NO_KEYS, run, c, a, Accepted) == 0
      && Count(NO_KEYS, run, c, a, Refused) > Bound(c)
  {
    if c.maxAttempts == 1 {
      BurstIsClocked(c.lockout, 1, [], c.lockout);
      BurstIsClocked(0, 1, Failures(c.lockout, 1) + [], 0);
      BurstOfFailures(NO_KEYS, 0, 1, c, 0, Failures(c.lockout, 1) + []);
      var k1 := AfterAll(NO_KEYS, Failures(0, 1), c);
      assert After(k1, Attempt(c.lockout, false), c) == AfterFailure(k1, c.lockout, c);
      assert (Failures(c.lockout, 1) + [])[0] == Attempt(c.lockout, false);
    } else {
      var early := c.maxAttempts - 1;
      var late := Failures(c.window, c.maxAttempts) + [];
      StraddleIsClocked(c, early, 1);
      BurstOfFailures(NO_KEYS, 0, 1, c, 1, Failures(1, early) + late);
      var k1 := AfterAll(NO_KEYS, Failures(0, 1), c);
      BurstOfFailures(k1, 1, early, c, 1, late);
      var k2 := AfterAll(k1, Failures(1, early), c);
      BurstOfFailures(k2, c.window, c.maxAttempts, c, 1, []);
    }
  }

  ghost predicate BoundHolds(c: Config) {
    forall attempts, a: int :: Clocked(attempts, 0) && Count(NO_KEYS, attempts, c, a, Accepted) == 0 ==>
      Count(NO_KEYS, attempts, c, a, Refused) <= Bound(c)
  }

  /** The bound holds of every run if and only if the lockout lasts at least one window. */
  lemma BoundHoldsIffLockoutCoversWindow(c: Config)
    requires c.Valid()
    ensures BoundHolds(c) <==> c.window <= c.lockout
  {
    if c.window <= c.lockout {
      forall attempts, a: int | Clocked(attempts, 0) && Count(NO_KEYS, attempts, c, a, Accepted) == 0
        ensures Count(NO_KEYS, attempts, c, a, Refused) <= Bound(c)
      {
        LockoutBound(attempts, c, a);
      }
    } else {
      ShortLockoutBreaksTheBound(c);
    }
  }

  /** While the lock key lives no attempt is evaluated, right password or wrong, and none moves the
      keys. */
  lemma {:induction false} LockHolds(k: Keys, attempts: seq<Attempt>, c: Config)
    requires forall i :: 0 <= i < |attempts| ==> Locked(k, attempts[i].at)
    ensures AfterAll(k, attempts, c) == k
    ensures forall a: int :: Count(k, attempts, c, a, Refused) == Count(k, attempts, c, a, Accepted) == 0
    decreases |attempts|
  {
    if attempts != [] {
      LockHolds(k, attempts[1..], c);
    }
  }

  // ----- what locks an account, and what a right password undoes -----

  /** No attempt of the run is turned away by a lock. */
  ghost predicate NeverLockedOut(k: Keys, attempts: seq<Attempt>, c: Config)
    decreases |attempts|
  {
    attempts != [] ==>
      Respond(k, attempts[0]) != LockedOut && NeverLockedOut(After(k, attempts[0], c), attempts[1..], c)
  }

  lemma {:induction false} FewFailuresDoNotLock(k: Keys, n: nat, attempts: seq<Attempt>, c: Config)
    requires attempts != [] ==> k.lock.None? && (k.fail.Some? ==> k.fail.value.count <= n)
    requires n + |attempts| <= c.maxAttempts
    ensures NeverLockedOut(k, attempts, c)
    decreases |attempts|
  {
    if attempts != [] {
      FewFailuresDoNotLock(After(k, attempts[0], c), n + 1, attempts[1..], c);
    }
  }

  /** A right password starts the count afresh: whatever came before it, however close to the maximum, the
      next maxAttempts attempts are all answered on their merits. */
  lemma SuccessStartsAfresh(k: Keys, a: Attempt, attempts: seq<Attempt>, c: Config)
    requires a.good && !(k.lock.Some? && a.at < k.lock.value) && |attempts| <= c.maxAttempts
    ensures NeverLockedOut(After(k, a, c), attempts, c)
  {
    FewFailuresDoNotLock(After(k, a, c), 0, attempts, c);
  }

  /** Failures on a clock, all of them before `expiresAt`. */
  ghost predicate FailuresBefore(attempts: seq<Attempt>, from: nat, expiresAt: nat) {
    attempts != [] ==>
      && !attempts[0].good && from <= attempts[0].at < expiresAt
      && FailuresBefore(attempts[1..], attempts[0].at, expiresAt)
  }

  lemma {:induction false} FailuresAddUp(k: Keys, attempts: seq<Attempt>, now: nat, c: Config)
    requires k.fail.Some? && k.lock.None? && 0 < k.fail.value.count < c.maxAttempts
    requires FailuresBefore(attempts, now, k.fail.value.expiresAt)
    requires attempts != [] && k.fail.value.count + |attempts| <= c.maxAttempts
    ensures AfterAll(k, attempts, c).lock ==
            if k.fail.value.count + |attempts| == c.maxAttempts then Some(attempts[|attempts| - 1].at + c.lockout)
            else None
    decreases |attempts|
  {
    var next := After(k, attempts[0], c);
    if |attempts| > 1 {
      FailuresAddUp(next, attempts[1..], attempts[0].at, c);
    } else {
      assert attempts[1..] == [];
    }
  }

  /** On a fresh account the maxAttempts-th failure within one window of the first locks, no earlier one does,
      and the lock lasts exactly the lockout from that failure: until then the next attempt is turned away, right
      password or wrong, and from then on it is answered on its merits. */
  lemma LocksExactlyAtTheMaximum(failures: seq<Attempt>, next: Attempt, c: Config)
    requires c.Valid() && 0 < |failures| <= c.maxAttempts
    requires FailuresBefore(failures, failures[0].at, failures[0].at + c.window)
    ensures Respond(AfterAll(NO_KEYS, failures, c), next)
         == if |failures| == c.maxAttempts && next.at < failures[|failures| - 1].at + c.lockout then LockedOut
            else if next.good then Accepted
            else Refused
  {
    var k := After(NO_KEYS, failures[0], c);
    if |failures| > 1 {
      FailuresAddUp(k, failures[1..], failures[0].at, c);
      assert failures[1..][|failures| - 2] == failures[|failures| - 1];
    } else {
      assert failures[1..] == [];
    }
  }
}

/** The adapter that holds the keys and the handler that drives it. */
module Login {
  import opened Wrappers
  import opened LockoutKeys

  datatype UserStatus = PENDING | ACTIVE | BLOCKED
  datatype AuthUser = AuthUser(id: nat, password: Option<nat>, status: UserStatus)
  datatype LoginResult =
    LoggedIn(user: AuthUser) | AccountLocked | InvalidCredentials | AccountBlocked | EmailNotVerified

  /** bcrypt.compare: opaque and injective, so the hash stands for the password. */
  predicate Matches(password: nat, hash: nat) {
    password == hash
  }

  class LoginAttemptRedisAdapter {
    const redisConfigured: bool
    const config: Config
    var failKeys: map<string, Counter>
    var lockKeys: map<string, nat>

    function KeysOf(identifier: string): Keys
      reads this
    {
      Keys(if identifier in failKeys then Some(failKeys[identifier]) else None,
           if identifier in lockKeys then Some(lockKeys[identifier]) else None)
    }

    constructor (redisConfigured: bool, config: Config)
      ensures this.redisConfigured == redisConfigured && this.config == config
      ensures forall id :: KeysOf(id) == NO_KEYS
    {
      this.redisConfigured, this.config := redisConfigured, config;
      failKeys, lockKeys := map[], map[];
    }

    method IsLocked(identifier: string, now: nat) returns (locked: bool)
      ensures locked <==> redisConfigured && Locked(KeysOf(identifier), now)
    {
      if !redisConfigured {
        return false;
      }
      locked := identifier in lockKeys && now < lockKeys[identifier];
    }

    method RegisterFailure(identifier: string, now: nat)
      modifies this
      ensures KeysOf(identifier) == if redisConfigured then AfterFailure(old(KeysOf(identifier)), now, config)
                                    else old(KeysOf(identifier))
      ensures forall id :: id != identifier ==> KeysOf(id) == old(KeysOf(id))
    {
      if !redisConfigured {
        return;
      }
      var live := identifier in failKeys && now < failKeys[identifier].expiresAt;
      var count := (if live then failKeys[identifier].count else 0) + 1;
      var expiresAt := if live then failKeys[identifier].expiresAt else 0;
      if count == 1 {
        expiresAt := now + config.window;
      }
      failKeys := failKeys[identifier := Counter(count, expiresAt)];
      if count >= config.maxAttempts {
        lockKeys := lockKeys[identifier := now + config.lockout];
      }
    }

    method ResetOnSuccess(identifier: string)
      modifies this
      ensures KeysOf(identifier) == if redisConfigured then NO_KEYS else old(KeysOf(identifier))
      ensures forall id :: id != identifier ==> KeysOf(id) == old(KeysOf(id))
    {
      if !redisConfigured {
        return;
      }
      failKeys := failKeys - {identifier};
      lockKeys := lockKeys - {identifier};
    }
  }

  class LoginHandler {
    const loginAttemptTracker: LoginAttemptRedisAdapter

    constructor (tracker: LoginAttemptRedisAdapter)
      ensures loginAttemptTracker == tracker
    {
      loginAttemptTracker := tracker;
    }

    /** One login. `user` is what the e-mail lookup found. With Redis configured the outcome and the
        keys are those of the lockout machine: a lock turns the attempt away, and a right password
        deletes both keys even for a blocked or pending account. Without Redis nobody is ever locked
        out. */
    method Execute(email: string, password: nat, user: Option<AuthUser>, now: nat) returns (r: LoginResult)
      requires loginAttemptTracker.config.Valid()
      modifies loginAttemptTracker
      ensures var t := loginAttemptTracker;
        var good := user.Some? && user.value.password.Some? && Matches(password, user.value.password.value);
        var k := old(t.KeysOf(email));
        var a := Attempt(now, good);
        && (t.redisConfigured ==>
             && t.KeysOf(email) == After(k, a, t.config)
             && (r == AccountLocked <==> Respond(k, a) == LockedOut)
             && (r == InvalidCredentials <==> Respond(k, a) == Refused))
        && (t.redisConfigured && k.lock.Some? && now < k.lock.value ==> r == AccountLocked && t.KeysOf(email) == k)
        && (t.redisConfigured && good && r != AccountLocked ==> t.KeysOf(email) == Keys(None, None))
        && (!t.redisConfigured ==> r != AccountLocked && (r == InvalidCredentials <==> !good) && t.KeysOf(email) == k)
        && (r.LoggedIn? ==> good && user == Some(r.user) && r.user.status == ACTIVE)
        && (r == AccountBlocked ==> good && user.value.status == BLOCKED)
        && (r == EmailNotVerified ==> good && user.value.status == PENDING)
        && (forall id :: id != email ==> t.KeysOf(id) == old(t.KeysOf(id)))
    {
      var locked := loginAttemptTracker.IsLocked(email, now);
      if locked {
        return AccountLocked;
      }
      var isMatch := user.Some? && user.value.password.Some? && Matches(password, user.value.password.value);
      if user.None? || user.value.password.None? || !isMatch {
        loginAttemptTracker.RegisterFailure(email, now);
        return InvalidCredentials;
      }
      loginAttemptTracker.ResetOnSuccess(email);
      if user.value.status == BLOCKED {
        return AccountBlocked;
      }
      if user.value.status == PENDING {
        return EmailNotVerified;
      }
      return LoggedIn(user.value);
    }
  }
}
