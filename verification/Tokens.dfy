// Refresh tokens and emailed codes: rotation, revocation, single use, and the nightly cleanup.

/** Both token tables as one state, and the serial calls that use them. Hashes are opaque; a hash is a
    unique key in its table. */
module TokenLifecycle {
  import opened Wrappers
  import opened FiniteSets

  type Hash = nat
  type UserId = nat

  datatype Refresh = Refresh(user: UserId, expiresAt: nat, revoked: bool)

  datatype CodeKind = EMAIL_VERIFICATION | PASSWORD_RESET

  datatype Code = Code(user: UserId, kind: CodeKind, expiresAt: nat, used: bool)

  datatype Store = Store(tokens: map<Hash, Refresh>, codes: map<Hash, Code>)

  /** What the user table says at the moment of the call. */
  datatype Account = Missing | Pending | Active | Blocked

  /** `findValidByHash`. */
  predicate Valid(s: Store, h: Hash, now: nat) {
    h in s.tokens && !s.tokens[h].revoked && !(s.tokens[h].expiresAt < now)
  }

  /** `findValidByHashAndType`. */
  predicate Redeemable(s: Store, h: Hash, kind: CodeKind, now: nat) {
    h in s.codes && s.codes[h].kind == kind && !s.codes[h].used && !(s.codes[h].expiresAt < now)
  }

  /** One serial call. `subject` is the user a refresh token's signature vouches for, None when the
      signature or its own expiry is refused; new tokens come with the hash and expiry they will have. */
  datatype Call =
    | Login(user: UserId, hash: Hash, expiresAt: nat)
    | RefreshTokens(hash: Hash, subject: Option<UserId>, account: Account, newHash: Hash, newExpiresAt: nat)
    | Logout(user: UserId, hash: Hash)
    | LogoutAll(user: UserId)
    | IssueCode(user: UserId, kind: CodeKind, hash: Hash, expiresAt: nat)
    | Redeem(hash: Hash, kind: CodeKind, userExists: bool)
    | Cleanup

  datatype Answer =
    | Done | InvalidToken | AccessDenied | AccountBlocked | EmailNotVerified | InvalidCode | DuplicateHash

  // ---- Repository writes ----

  function Create(s: Store, h: Hash, row: Refresh): Store {
    if h in s.tokens then s else s.(tokens := s.tokens[h := row])
  }

  /** `updateMany({ where: { userId, tokenHash, revokedAt: null } })`. */
  function RevokeByHash(s: Store, user: UserId, h: Hash): Store {
    if h in s.tokens && s.tokens[h].user == user then s.(tokens := s.tokens[h := s.tokens[h].(revoked := true)]) else s
  }

  function RevokedFor(user: UserId, row: Refresh): Refresh {
    if row.user == user then row.(revoked := true) else row
  }

  function RevokeAllForUser(s: Store, user: UserId): Store {
    s.(tokens := map h | h in s.tokens :: RevokedFor(user, s.tokens[h]))
  }

  function MarkUsed(s: Store, h: Hash): Store {
    if h in s.codes then s.(codes := s.codes[h := s.codes[h].(used := true)]) else s
  }

  /** Deletes refresh tokens that have expired, and codes that have expired or been used. */
  function DeleteDead(s: Store, now: nat): Store {
    Store(map h | h in s.tokens && !(s.tokens[h].expiresAt < now) :: s.tokens[h],
          map h | h in s.codes && !(s.codes[h].expiresAt < now || s.codes[h].used) :: s.codes[h])
  }

  // ---- Calls ----

  /** The guards of a refresh, in order. */
  function RefreshGuard(s: Store, c: Call, now: nat): Answer
    requires c.RefreshTokens?
  {
    if c.subject.None? then InvalidToken
    else if !Valid(s, c.hash, now) || s.tokens[c.hash].user != c.subject.value then AccessDenied
    else match c.account
      case Missing => AccessDenied
      case Blocked => AccountBlocked
      case Pending => EmailNotVerified
      case Active => Done
  }

  function Reply(s: Store, c: Call, now: nat): Answer {
    match c
    case Login(_, h, _) => if h in s.tokens then DuplicateHash else Done
    case RefreshTokens(_, _, _, newHash, _) =>
      if RefreshGuard(s, c, now).Done? && newHash in s.tokens then DuplicateHash else RefreshGuard(s, c, now)
    case IssueCode(_, _, h, _) => if h in s.codes then DuplicateHash else Done
    case Redeem(h, kind, userExists) => if Redeemable(s, h, kind, now) && userExists then Done else InvalidCode
    case _ => Done
  }

  function Next(s: Store, c: Call, now: nat): Store {
    match c
    case Login(user, h, expiresAt) => Create(s, h, Refresh(user, expiresAt, false))
    case RefreshTokens(h, subject, _, newHash, newExpiresAt) =>
      if RefreshGuard(s, c, now).Done?
      then Create(RevokeByHash(s, subject.value, h), newHash, Refresh(subject.value, newExpiresAt, false))
      else s
    case Logout(user, h) => RevokeByHash(s, user, h)
    case LogoutAll(user) => RevokeAllForUser(s, user)
    case IssueCode(user, kind, h, expiresAt) =>
      if h in s.codes then s else s.(codes := s.codes[h := Code(user, kind, expiresAt, false)])
    case Redeem(h, kind, userExists) =>
      if !(Redeemable(s, h, kind, now) && userExists) then s
      else if kind == PASSWORD_RESET then RevokeAllForUser(MarkUsed(s, h), s.codes[h].user)
      else MarkUsed(s, h)
    case Cleanup => DeleteDead(s, now)
  }

  /** A run from its first call on; `at` is when a call is made. */
  datatype Run = End | Step(at: nat, call: Call, rest: Run)

  function After(s: Store, run: Run): Store
    decreases run
  {
    match run
    case End => s
    case Step(at, c, rest) => After(Next(s, c, at), rest)
  }

  function Replies(s: Store, run: Run): seq<Answer>
    decreases run
  {
    match run
    case End => []
    case Step(at, c, rest) => [Reply(s, c, at)] + Replies(Next(s, c, at), rest)
  }

  ghost predicate Clocked(now: nat, run: Run)
    decreases run
  {
    run.Step? ==> now <= run.at && Clocked(run.at, run.rest)
  }

  predicate IssuesToken(c: Call, h: Hash) {
    (c.Login? && c.hash == h) || (c.RefreshTokens? && c.newHash == h)
  }

  predicate IssuesCode(c: Call, h: Hash) {
    c.IssueCode? && c.hash == h
  }

  // ---- A dead token stays dead ----

  /** A refresh token that is revoked, or no longer stored at all. */
  predicate IsDead(s: Store, h: Hash) {
    h in s.tokens ==> s.tokens[h].revoked
  }

  predicate CodeIsDead(s: Store, h: Hash) {
    h in s.codes ==> s.codes[h].used
  }

  /** No call of the run issues `h` anew. */
  ghost predicate NeverIssued(run: Run, h: Hash) {
    run.Step? ==> !IssuesToken(run.call, h) && NeverIssued(run.rest, h)
  }

  ghost predicate CodeNeverIssued(run: Run, h: Hash) {
    run.Step? ==> !IssuesCode(run.call, h) && CodeNeverIssued(run.rest, h)
  }

  /** Every refresh with `h` in the run is refused, whatever the signature and the account say. */
  ghost predicate NeverAccepted(s: Store, run: Run, h: Hash)
    decreases run
  {
    run.Step? ==>
      && (run.call.RefreshTokens? && run.call.hash == h
          ==> Reply(s, run.call, run.at).InvalidToken? || Reply(s, run.call, run.at).AccessDenied?)
      && NeverAccepted(Next(s, run.call, run.at), run.rest, h)
  }

  ghost predicate NeverRedeemed(s: Store, run: Run, h: Hash)
    decreases run
  {
    run.Step? ==>
      && (run.call.Redeem? && run.call.hash == h ==> Reply(s, run.call, run.at).InvalidCode?)
      && NeverRedeemed(Next(s, run.call, run.at), run.rest, h)
  }

  /** A revoked token is never accepted again in any run. */
  lemma {:induction false} DeadTokenIsNeverAccepted(s: Store, run: Run, h: Hash)
    requires IsDead(s, h) && NeverIssued(run, h)
    ensures NeverAccepted(s, run, h)
    decreases run
  {
    if run.Step? {
      DeadTokenIsNeverAccepted(Next(s, run.call, run.at), run.rest, h);
    }
  }

  lemma {:induction false} UsedCodeIsNeverRedeemed(s: Store, run: Run, h: Hash)
    requires CodeIsDead(s, h) && CodeNeverIssued(run, h)
    ensures NeverRedeemed(s, run, h)
    decreases run
  {
    if run.Step? {
      UsedCodeIsNeverRedeemed(Next(s, run.call, run.at), run.rest, h);
    }
  }

  /** A refresh token is good for one refresh: once a refresh gets past its guards, no later call with the
      same token is accepted. (Even one that then fails for a clashing new hash has used the token up.) */
  lemma RefreshIsSingleUse(s: Store, c: Call, now: nat, run: Run)
    requires c.RefreshTokens? && RefreshGuard(s, c, now).Done?
    requires c.newHash != c.hash && NeverIssued(run, c.hash)
    ensures NeverAccepted(Next(s, c, now), run, c.hash)
  {
    DeadTokenIsNeverAccepted(Next(s, c, now), run, c.hash);
  }

  /** Logging out ends the session for good when it is the caller's own, and touches nothing else. */
  lemma LogoutEndsTheSession(s: Store, user: UserId, h: Hash, now: nat, run: Run)
    requires NeverIssued(run, h) && (h in s.tokens ==> s.tokens[h].user == user)
    ensures NeverAccepted(Next(s, Logout(user, h), now), run, h)
    ensures forall g, at :: g != h ==> (Valid(Next(s, Logout(user, h), now), g, at) <==> Valid(s, g, at))
  {
    DeadTokenIsNeverAccepted(Next(s, Logout(user, h), now), run, h);
  }

  /** A code is redeemed at most once, and only as the kind it was issued for. */
  lemma RedeemIsSingleUse(s: Store, c: Call, now: nat, run: Run)
    requires c.Redeem? && Reply(s, c, now).Done? && CodeNeverIssued(run, c.hash)
    ensures c.hash in s.codes && s.codes[c.hash].kind == c.kind
    ensures NeverRedeemed(Next(s, c, now), run, c.hash)
  {
    UsedCodeIsNeverRedeemed(Next(s, c, now), run, c.hash);
  }

  // ---- What is issued can be used, and by whom ----

  /** The token of a login can be exchanged by its active owner up to and including its expiry, and not later. */
  lemma LoginCanRefresh(s: Store, user: UserId, h: Hash, expiresAt: nat, now: nat, newHash: Hash, next: nat, at: nat)
    requires h !in s.tokens
    ensures Reply(Next(s, Login(user, h, expiresAt), now), RefreshTokens(h, Some(user), Active, newHash, next), at)
         == if expiresAt < at then AccessDenied
            else if newHash in s.tokens || newHash == h then DuplicateHash
            else Done
  {
    var after := Next(s, Login(user, h, expiresAt), now);
    assert after.tokens[h] == Refresh(user, expiresAt, false);
  }

  /** And so can the token a refresh hands out: rotation can go on for as long as each link is used in time. */
  lemma RefreshCanRefresh(s: Store, c: Call, now: nat, newHash: Hash, next: nat, at: nat)
    requires c.RefreshTokens? && Reply(s, c, now).Done?
    ensures Reply(Next(s, c, now), RefreshTokens(c.newHash, c.subject, Active, newHash, next), at)
         == if c.newExpiresAt < at then AccessDenied
            else if newHash in s.tokens || newHash == c.newHash then DuplicateHash
            else Done
  {
    assert Next(s, c, now).tokens[c.newHash] == Refresh(c.subject.value, c.newExpiresAt, false);
  }

  /** An emailed code can be redeemed up to and including its expiry, as what it was issued for and for as long as
      its user exists, and in no other way. */
  lemma IssuedCodeIsRedeemable(s: Store, c: Call, now: nat, kind: CodeKind, userExists: bool, at: nat)
    requires c.IssueCode? && c.hash !in s.codes
    ensures Reply(Next(s, c, now), Redeem(c.hash, kind, userExists), at)
         == if kind == c.kind && at <= c.expiresAt && userExists then Done else InvalidCode
  {
    assert Next(s, c, now).codes[c.hash] == Code(c.user, c.kind, c.expiresAt, false);
  }

  /** The user never logs in during the run, and his account is not active at any of his refreshes. */
  ghost predicate NeverActive(run: Run, user: UserId) {
    run.Step? ==>
      && !(run.call.Login? && run.call.user == user)
      && (run.call.RefreshTokens? && run.call.subject == Some(user) ==> run.call.account != Active)
      && NeverActive(run.rest, user)
  }

  /** Every refresh of the user's in the run is refused for good reason, and none uses a token up. */
  ghost predicate RefusedThroughout(s: Store, run: Run, user: UserId)
    decreases run
  {
    run.Step? ==>
      && (run.call.RefreshTokens? && run.call.subject == Some(user) ==>
            && Reply(s, run.call, run.at) in {AccessDenied, AccountBlocked, EmailNotVerified}
            && Next(s, run.call, run.at) == s)
      && RefusedThroughout(Next(s, run.call, run.at), run.rest, user)
  }

  /** The hashes stored for a user that are not revoked. */
  function Unrevoked(s: Store, user: UserId): set<Hash> {
    set h | h in s.tokens && s.tokens[h].user == user && !s.tokens[h].revoked
  }

  /** A user who is blocked, pending or gone gets no token out of any run, however many valid ones he presents:
      all his refreshes are refused, none changes the tables, and no token of his is there that was not before. */
  lemma {:induction false} InactiveUserGetsNoToken(s: Store, run: Run, user: UserId)
    requires NeverActive(run, user)
    ensures RefusedThroughout(s, run, user)
    ensures Unrevoked(After(s, run), user) <= Unrevoked(s, user)
    decreases run
  {
    if run.Step? {
      var next := Next(s, run.call, run.at);
      assert Unrevoked(next, user) <= Unrevoked(s, user);
      InactiveUserGetsNoToken(next, run.rest, user);
    }
  }

  // ---- Live sessions ----

  function Sessions(s: Store, user: UserId, now: nat): set<Hash> {
    set h | h in s.tokens && Valid(s, h, now) && s.tokens[h].user == user
  }

  lemma Swapped(a: set<Hash>, x: Hash, y: Hash)
    requires x in a && y !in a
    ensures |a - {x} + {y}| == |a|
  {}

  lemma OthersKeepSessions(s: Store, c: Call, now: nat, user: UserId)
    requires c.RefreshTokens? && Reply(s, c, now).Done? && user != c.subject.value
    ensures Sessions(Next(s, c, now), user, now) == Sessions(s, user, now)
  {}

  lemma OwnSessionsSwap(s: Store, c: Call, now: nat)
    requires c.RefreshTokens? && Reply(s, c, now).Done? && now <= c.newExpiresAt
    ensures c.hash in Sessions(s, c.subject.value, now) && c.newHash !in Sessions(s, c.subject.value, now)
    ensures Sessions(Next(s, c, now), c.subject.value, now)
         == Sessions(s, c.subject.value, now) - {c.hash} + {c.newHash}
  {}

  /** A refresh swaps one live session for another: the user ends with as many as before, and nobody
      else's sessions change. */
  lemma RefreshConservesSessions(s: Store, c: Call, now: nat, user: UserId)
    requires c.RefreshTokens? && Reply(s, c, now).Done? && now <= c.newExpiresAt
    ensures |Sessions(Next(s, c, now), user, now)| == |Sessions(s, user, now)|
    ensures user != c.subject.value ==> Sessions(Next(s, c, now), user, now) == Sessions(s, user, now)
  {
    hide Sessions, Next;
    if user == c.subject.value {
      OwnSessionsSwap(s, c, now);
      Swapped(Sessions(s, user, now), c.hash, c.newHash);
    } else {
      OthersKeepSessions(s, c, now, user);
    }
  }

  /** Logging out everywhere leaves the user no live session at any later time, and everybody else all of
      theirs. */
  lemma LogoutAllLeavesNone(s: Store, user: UserId, other: UserId, now: nat, at: nat)
    ensures Sessions(Next(s, LogoutAll(user), now), other, at) == if other == user then {} else Sessions(s, other, at)
  {
    var after := Next(s, LogoutAll(user), now);
    assert forall h :: h in s.tokens ==> after.tokens[h] == RevokedFor(user, s.tokens[h]);
  }

  function LoginsOf(run: Run, user: UserId): nat {
    match run
    case End => 0
    case Step(_, c, rest) => (if c.Login? && c.user == user then 1 else 0) + LoginsOf(rest, user)
  }

  /** The last instant of a run. */
  function EndOf(now: nat, run: Run): nat
    decreases run
  {
    match run
    case End => now
    case Step(at, _, rest) => EndOf(at, rest)
  }

  lemma RefreshAddsNone(s: Store, c: Call, now: nat, user: UserId)
    requires c.RefreshTokens?
    ensures |Sessions(Next(s, c, now), user, now)| <= |Sessions(s, user, now)|
  {
    var before, after := Sessions(s, user, now), Sessions(Next(s, c, now), user, now);
    if RefreshGuard(s, c, now).Done? && c.subject.value == user {
      assert c.hash in before && after <= before - {c.hash} + {c.newHash};
      SubsetIsNoLarger(after, before - {c.hash} + {c.newHash});
    } else {
      assert after <= before;
      SubsetIsNoLarger(after, before);
    }
  }

  lemma LoginAddsItsOwn(s: Store, c: Call, now: nat, user: UserId)
    requires c.Login?
    ensures Sessions(Next(s, c, now), user, now) <= Sessions(s, user, now) + if c.user == user then {c.hash} else {}
  {}

  lemma OthersAddNone(s: Store, c: Call, now: nat, user: UserId)
    requires !c.Login? && !c.RefreshTokens?
    ensures Sessions(Next(s, c, now), user, now) <= Sessions(s, user, now)
  {}

  /** One call, whatever it is, adds at most the session of a login. */
  lemma OnlyLoginsAddStep(s: Store, c: Call, now: nat, user: UserId)
    ensures |Sessions(Next(s, c, now), user, now)|
            <= |Sessions(s, user, now)| + if c.Login? && c.user == user then 1 else 0
  {
    hide Sessions, Next;
    var before, after := Sessions(s, user, now), Sessions(Next(s, c, now), user, now);
    if c.RefreshTokens? {
      RefreshAddsNone(s, c, now, user);
    } else if c.Login? {
      LoginAddsItsOwn(s, c, now, user);
      SubsetIsNoLarger(after, before + if c.user == user then {c.hash} else {});
    } else {
      OthersAddNone(s, c, now, user);
      SubsetIsNoLarger(after, before);
    }
  }

  /** Over every run a user has no more live sessions than at the start plus the logins since: refreshes,
      redeemed codes and cleanups never create one. */
  lemma {:induction false} SessionsComeFromLogins(s: Store, now: nat, run: Run, user: UserId)
    requires Clocked(now, run)
    ensures |Sessions(After(s, run), user, EndOf(now, run))| <= |Sessions(s, user, now)| + LoginsOf(run, user)
    decreases run
  {
    if run.Step? {
      assert Sessions(s, user, run.at) <= Sessions(s, user, now);
      SubsetIsNoLarger(Sessions(s, user, run.at), Sessions(s, user, now));
      OnlyLoginsAddStep(s, run.call, run.at, user);
      SessionsComeFromLogins(Next(s, run.call, run.at), run.at, run.rest, user);
    }
  }

  // ---- The cleanup cannot be observed ----

  function NextUncleaned(s: Store, c: Call, now: nat): Store {
    if c.Cleanup? then s else Next(s, c, now)
  }

  /** What the callers of a run would hear if no cleanup ever deleted anything. */
  function RepliesUncleaned(s: Store, run: Run): seq<Answer>
    decreases run
  {
    match run
    case End => []
    case Step(at, c, rest) => [Reply(s, c, at)] + RepliesUncleaned(NextUncleaned(s, c, at), rest)
  }

  predicate TokenPast(row: Refresh, now: nat) {
    row.revoked || row.expiresAt < now
  }

  predicate CodePast(row: Code, now: nat) {
    row.used || row.expiresAt < now
  }

  ghost predicate TokensThinned(s: Store, u: Store, now: nat) {
    && (forall h :: h in s.tokens ==> h in u.tokens && u.tokens[h] == s.tokens[h])
    && (forall h :: h in u.tokens && h !in s.tokens ==> TokenPast(u.tokens[h], now))
  }

  ghost predicate CodesThinned(s: Store, u: Store, now: nat) {
    && (forall h :: h in s.codes ==> h in u.codes && u.codes[h] == s.codes[h])
    && (forall h :: h in u.codes && h !in s.codes ==> CodePast(u.codes[h], now))
  }

  /** `s` is `u` without some rows nobody can use any more. */
  ghost predicate Thinned(s: Store, u: Store, now: nat) {
    TokensThinned(s, u, now) && CodesThinned(s, u, now)
  }

  /** The call brings a new hash that clashes with a row a cleanup has deleted. */
  predicate Reissues(s: Store, u: Store, c: Call, now: nat) {
    match c
    case Login(_, h, _) => h in u.tokens && h !in s.tokens
    case RefreshTokens(_, _, _, h, _) => RefreshGuard(u, c, now).Done? && h in u.tokens && h !in s.tokens
    case IssueCode(_, _, h, _) => h in u.codes && h !in s.codes
    case _ => false
  }

  lemma ThinnedGuardsAlike(s: Store, u: Store, c: Call, now: nat)
    requires Thinned(s, u, now) && c.RefreshTokens?
    ensures RefreshGuard(s, c, now) == RefreshGuard(u, c, now)
    ensures RefreshGuard(s, c, now).Done? ==> c.hash in s.tokens
  {}

  lemma ThinnedRepliesAlike(s: Store, u: Store, c: Call, now: nat)
    requires Thinned(s, u, now)
    ensures Reply(s, c, now) == Reply(u, c, now) <==> !Reissues(s, u, c, now)
  {
    if c.RefreshTokens? {
      ThinnedGuardsAlike(s, u, c, now);
    }
  }

  lemma TokensThinnedStep(s: Store, u: Store, c: Call, now: nat)
    requires Thinned(s, u, now) && !Reissues(s, u, c, now)
    ensures TokensThinned(Next(s, c, now), NextUncleaned(u, c, now), now)
  {
    if c.RefreshTokens? {
      ThinnedGuardsAlike(s, u, c, now);
      hide RefreshGuard;
    }
  }

  lemma ThinnedStep(s: Store, u: Store, c: Call, now: nat)
    requires Thinned(s, u, now) && !Reissues(s, u, c, now)
    ensures Thinned(Next(s, c, now), NextUncleaned(u, c, now), now)
  {
    hide TokensThinned;
    TokensThinnedStep(s, u, c, now);
  }

  /** No call of the run reissues a hash that a cleanup has deleted. */
  ghost predicate NoneReissued(s: Store, u: Store, run: Run)
    decreases run
  {
    run.Step? ==>
      && !Reissues(s, u, run.call, run.at)
      && NoneReissued(Next(s, run.call, run.at), NextUncleaned(u, run.call, run.at), run.rest)
  }

  /** The nightly cleanup is unobservable, exactly as long as no deleted hash comes back: over every run on a
      clock that never goes back, whatever cleanups it contains, every caller gets the answer it would have got
      had nothing ever been deleted if and only if no call brings a new hash that a cleanup deleted. */
  lemma {:induction false} CleanupIsUnobservable(s: Store, u: Store, now: nat, run: Run)
    requires Thinned(s, u, now) && Clocked(now, run)
    ensures Replies(s, run) == RepliesUncleaned(u, run) <==> NoneReissued(s, u, run)
    decreases run
  {
    hide Thinned, Reply, Next, Reissues;
    if run.Step? {
      var s', u' := Next(s, run.call, run.at), NextUncleaned(u, run.call, run.at);
      ThinnedLater(s, u, now, run.at);
      ThinnedRepliesAlike(s, u, run.call, run.at);
      assert Replies(s, run)[0] == Reply(s, run.call, run.at);
      assert RepliesUncleaned(u, run)[0] == Reply(u, run.call, run.at);
      assert Replies(s, run)[1..] == Replies(s', run.rest);
      assert RepliesUncleaned(u, run)[1..] == RepliesUncleaned(u', run.rest);
      if !Reissues(s, u, run.call, run.at) {
        ThinnedStep(s, u, run.call, run.at);
        CleanupIsUnobservable(s', u', run.at, run.rest);
      }
    }
  }

  lemma ThinnedLater(s: Store, u: Store, now: nat, later: nat)
    requires Thinned(s, u, now) && now <= later
    ensures Thinned(s, u, later)
  {}

  /** Without the freshness of hashes it could be observed: a clash with a row the cleanup deleted goes
      unnoticed. */
  lemma AClashWouldRevealTheCleanup()
    ensures exists run ::
      Clocked(0, run) && Replies(Store(map[], map[]), run) != RepliesUncleaned(Store(map[], map[]), run)
  {
    var s := Store(map[], map[]);
    var run := Step(0, Login(1, 7, 5), Step(6, Cleanup, Step(6, Login(2, 7, 11), End)));
    var u := Next(s, Login(1, 7, 5), 0);
    assert 7 !in Next(u, Cleanup, 6).tokens;
    assert Replies(s, run) == [Done] + ([Done] + ([Done] + []));
    assert RepliesUncleaned(s, run) == [Done] + ([Done] + ([DuplicateHash] + []));
    assert Replies(s, run)[2] != RepliesUncleaned(s, run)[2];
  }
}

/** The repositories, the refresh call and the cleanup, on tables updated in place. */
module AuthService {
  import opened Wrappers
  import T = TokenLifecycle

  /** What a redeemed code does to the user row. */
  datatype AccountChange = Unchanged | Activated(user: T.UserId) | PasswordReset(user: T.UserId)

  class TokenTables {
    var tokens: map<T.Hash, T.Refresh>
    var codes: map<T.Hash, T.Code>

    constructor ()
      ensures State() == T.Store(map[], map[])
    {
      tokens, codes := map[], map[];
    }

    function State(): T.Store
      reads this
    {
      T.Store(tokens, codes)
    }

    method FindValidByHash(h: T.Hash, now: nat) returns (row: Option<T.Refresh>)
      ensures row.Some? <==> h in tokens && !tokens[h].revoked && now <= tokens[h].expiresAt
      ensures row.Some? ==> row.value == tokens[h]
    {
      if h !in tokens || tokens[h].revoked || tokens[h].expiresAt < now {
        return None;
      }
      return Some(tokens[h]);
    }

    method Create(user: T.UserId, h: T.Hash, expiresAt: nat) returns (ok: bool)
      modifies this
      ensures ok <==> h !in old(tokens)
      ensures tokens == if ok then old(tokens)[h := T.Refresh(user, expiresAt, false)] else old(tokens)
      ensures State() == T.Create(old(State()), h, T.Refresh(user, expiresAt, false))
    {
      if h in tokens {
        return false;
      }
      tokens := tokens[h := T.Refresh(user, expiresAt, false)];
      return true;
    }

    method RevokeByHash(user: T.UserId, h: T.Hash)
      modifies this
      ensures State() == T.RevokeByHash(old(State()), user, h)
      ensures tokens.Keys == old(tokens).Keys && codes == old(codes)
      ensures forall g :: g in tokens && (g != h || tokens[g].user != user) ==> tokens[g] == old(tokens)[g]
      ensures h in tokens && tokens[h].user == user ==> tokens[h] == old(tokens)[h].(revoked := true)
    {
      if h in tokens && tokens[h].user == user && !tokens[h].revoked {
        tokens := tokens[h := tokens[h].(revoked := true)];
      } else {
        assert T.RevokeByHash(State(), user, h).tokens == tokens;
      }
    }

    method RevokeAllForUser(user: T.UserId)
      modifies this
      ensures State() == T.RevokeAllForUser(old(State()), user)
      ensures tokens.Keys == old(tokens).Keys && codes == old(codes)
      ensures forall g :: g in tokens ==>
        tokens[g] == if old(tokens)[g].user == user then old(tokens)[g].(revoked := true) else old(tokens)[g]
    {
      tokens := map h | h in tokens ::
        if tokens[h].user == user && !tokens[h].revoked then tokens[h].(revoked := true) else tokens[h];
      assert tokens == T.RevokeAllForUser(old(State()), user).tokens;
    }

    method DeleteExpired(before: nat) returns (count: nat)
      modifies this
      ensures State() == T.DeleteDead(old(State()), before).(codes := old(codes))
      ensures tokens == map h | h in old(tokens) && before <= old(tokens)[h].expiresAt :: old(tokens)[h]
      ensures count == |set h | h in old(tokens) && old(tokens)[h].expiresAt < before|
    {
      var expired := set h | h in tokens && tokens[h].expiresAt < before;
      tokens := tokens - expired;
      count := |expired|;
      assert expired == set h | h in old(tokens) && old(tokens)[h].expiresAt < before;
      assert tokens == T.DeleteDead(old(State()), before).tokens;
    }

    method DeleteExpiredOrUsed(before: nat) returns (count: nat)
      modifies this
      ensures State() == T.DeleteDead(old(State()), before).(tokens := old(tokens))
      ensures codes
           == map h | h in old(codes) && before <= old(codes)[h].expiresAt && !old(codes)[h].used :: old(codes)[h]
      ensures count == |set h | h in old(codes) && (old(codes)[h].expiresAt < before || old(codes)[h].used)|
    {
      var dead := set h | h in codes && (codes[h].expiresAt < before || codes[h].used);
      codes := codes - dead;
      count := |dead|;
      assert dead == set h | h in old(codes) && (old(codes)[h].expiresAt < before || old(codes)[h].used);
      assert codes == T.DeleteDead(old(State()), before).codes;
    }

    /** `CleanupExpiredTokensHandler`. */
    method CleanupExpiredTokens(now: nat) returns (refreshTokensDeleted: nat, verificationTokensDeleted: nat)
      modifies this
      ensures State() == T.Next(old(State()), T.Cleanup, now)
      ensures tokens == map h | h in old(tokens) && now <= old(tokens)[h].expiresAt :: old(tokens)[h]
      ensures codes == map h | h in old(codes) && now <= old(codes)[h].expiresAt && !old(codes)[h].used :: old(codes)[h]
      ensures refreshTokensDeleted == |set h | h in old(tokens) && old(tokens)[h].expiresAt < now|
      ensures verificationTokensDeleted
           == |set h | h in old(codes) && (old(codes)[h].expiresAt < now || old(codes)[h].used)|
    {
      refreshTokensDeleted := DeleteExpired(now);
      verificationTokensDeleted := DeleteExpiredOrUsed(now);
    }

    /** The token is stored, neither revoked nor expired, and belongs to the user its signature vouches for. */
    ghost predicate Presents(h: T.Hash, subject: Option<T.UserId>, now: nat)
      reads this
    {
      && subject.Some? && h in tokens && tokens[h].user == subject.value
      && !tokens[h].revoked && now <= tokens[h].expiresAt
    }

    /** `refreshTokens`: guards, then the old token is revoked before the new one is stored. With a usable token the
        account decides: only an active one is issued a new token, a blocked or pending one is told so and keeps the
        old, and a missing one is denied. */
    method RefreshTokens(now: nat, h: T.Hash, subject: Option<T.UserId>, account: T.Account,
                         newHash: T.Hash, newExpiresAt: nat) returns (answer: T.Answer)
      modifies this
      ensures answer == T.Reply(old(State()), T.RefreshTokens(h, subject, account, newHash, newExpiresAt), now)
      ensures State() == T.Next(old(State()), T.RefreshTokens(h, subject, account, newHash, newExpiresAt), now)
      ensures answer == T.InvalidToken <==> subject.None?
      ensures answer == T.AccessDenied <==> subject.Some? && (old(!Presents(h, subject, now)) || account.Missing?)
      ensures answer == T.AccountBlocked <==> old(Presents(h, subject, now)) && account.Blocked?
      ensures answer == T.EmailNotVerified <==> old(Presents(h, subject, now)) && account.Pending?
      ensures answer == T.Done <==> old(Presents(h, subject, now)) && account.Active? && newHash !in old(tokens)
      ensures answer == T.DuplicateHash <==> old(Presents(h, subject, now)) && account.Active? && newHash in old(tokens)
      ensures tokens == match answer
        case Done => old(tokens)[h := old(tokens)[h].(revoked := true)]
                                [newHash := T.Refresh(subject.value, newExpiresAt, false)]
        case DuplicateHash => old(tokens)[h := old(tokens)[h].(revoked := true)]
        case _ => old(tokens)
    {
      if subject.None? {
        return T.InvalidToken;
      }
      var stored := FindValidByHash(h, now);
      if stored.None? || stored.value.user != subject.value {
        return T.AccessDenied;
      }
      if account.Missing? {
        return T.AccessDenied;
      }
      if account.Blocked? {
        return T.AccountBlocked;
      }
      if account.Pending? {
        return T.EmailNotVerified;
      }
      RevokeByHash(subject.value, h);
      var ok := Create(subject.value, newHash, newExpiresAt);
      return if ok then T.Done else T.DuplicateHash;
    }

    /** The shared shape of verifying an email and resetting a password with a code. The one account changed is
        that of the user the code was issued to, and in the way the code was issued for. */
    method Redeem(now: nat, h: T.Hash, kind: T.CodeKind, userExists: bool)
      returns (answer: T.Answer, change: AccountChange)
      modifies this
      ensures answer == T.Reply(old(State()), T.Redeem(h, kind, userExists), now)
      ensures State() == T.Next(old(State()), T.Redeem(h, kind, userExists), now)
      ensures change == if !answer.Done? then Unchanged
                        else if old(codes)[h].kind == T.EMAIL_VERIFICATION then Activated(old(codes)[h].user)
                        else PasswordReset(old(codes)[h].user)
      ensures answer == T.Done <==> h in old(codes) && old(codes)[h].kind == kind && !old(codes)[h].used
                                    && now <= old(codes)[h].expiresAt && userExists
      ensures answer != T.Done ==> answer == T.InvalidCode && tokens == old(tokens) && codes == old(codes)
      ensures answer == T.Done ==> codes == old(codes)[h := old(codes)[h].(used := true)]
      ensures tokens.Keys == old(tokens).Keys
      ensures forall g :: g in tokens ==>
        tokens[g] == if answer == T.Done && kind == T.PASSWORD_RESET && old(tokens)[g].user == old(codes)[h].user
                     then old(tokens)[g].(revoked := true) else old(tokens)[g]
    {
      if h !in codes || codes[h].kind != kind || codes[h].used || codes[h].expiresAt < now {
        return T.InvalidCode, Unchanged;
      }
      if !userExists {
        return T.InvalidCode, Unchanged;
      }
      var user := codes[h].user;
      codes := codes[h := codes[h].(used := true)];
      if kind == T.EMAIL_VERIFICATION {
        return T.Done, Activated(user);
      }
      RevokeAllForUser(user);
      return T.Done, PasswordReset(user);
    }
  }
}
