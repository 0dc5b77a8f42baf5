// Role permissions: who may administer them, the two guards against locking everybody out, and the cache
// lookups are answered from.

module Rbac {
  import opened Wrappers

  /** Roles and permissions are identified by their unique names. */
  type Role = string
  type Permission = string
  type UserId = nat

  const ADMIN: Role := "ADMIN"
  const MANAGE: Permission := "role:permission:manage"

  datatype Status = PENDING | ACTIVE | BLOCKED

  datatype User = User(role: Role, status: Status)

  datatype Tables = Tables(roles: set<Role>, permissions: set<Permission>,
                           grants: set<(Role, Permission)>, users: map<UserId, User>)

  datatype Answer =
    | Done | RoleNotFound | PermissionNotFound(missing: set<Permission>) | CannotRemoveLastManager
    | UserNotFound | CannotModifyOwnAccount | CannotRemoveLastAdmin | Duplicate

  // ---- Replacing a role's permissions ----

  function Replaced(grants: set<(Role, Permission)>, role: Role, given: set<Permission>): set<(Role, Permission)> {
    (set g | g in grants && g.0 != role) + (set p | p in given :: (role, p))
  }

  function OtherHolders(t: Tables, role: Role): set<(Role, Permission)> {
    set g | g in t.grants && g.1 == MANAGE && g.0 != role
  }

  /** `ensureRbacAdministrationSurvives`. */
  predicate ManagementSurvives(t: Tables, role: Role, given: set<Permission>) {
    MANAGE !in t.permissions || MANAGE in given || (role, MANAGE) !in t.grants || |OtherHolders(t, role)| != 0
  }

  function UpdateRoleAnswer(t: Tables, role: Role, given: set<Permission>): Answer {
    if role !in t.roles then RoleNotFound
    else if !(given <= t.permissions) then PermissionNotFound(given - t.permissions)
    else if !ManagementSurvives(t, role, given) then CannotRemoveLastManager
    else Done
  }

  /** Counting finds a missing permission: the existing ones are as many as the given ones only when all
      of them exist. */
  lemma SmallerMeansMissing(given: set<Permission>, permissions: set<Permission>)
    ensures |given * permissions| == |given| <==> given <= permissions
    ensures given - given * permissions == given - permissions
  {
    assert given == given * permissions + (given - permissions);
    if !(given <= permissions) {
      var p :| p in given && p !in permissions;
      assert p in given - permissions;
    } else {
      assert given * permissions == given;
    }
  }

  // ---- Changing a user ----

  predicate IsActiveAdmin(u: User) {
    u.role == ADMIN && u.status == ACTIVE
  }

  function ActiveAdmins(t: Tables): set<UserId> {
    set u | u in t.users && IsActiveAdmin(t.users[u])
  }

  predicate TakesActivity(status: Option<Status>) {
    status.Some? && status.value != ACTIVE
  }

  predicate RemovesAdminAccess(u: User, status: Option<Status>, role: Option<Role>) {
    u.role == ADMIN && (TakesActivity(status) || (role.Some? && role.value != ADMIN))
  }

  function Updated(u: User, status: Option<Status>, role: Option<Role>): User {
    User(if role.Some? then role.value else u.role, if status.Some? then status.value else u.status)
  }

  function AdminUpdateAnswer(t: Tables, acting: UserId, user: UserId, status: Option<Status>, role: Option<Role>)
    : Answer
  {
    if user !in t.users then UserNotFound
    else if user == acting && (TakesActivity(status) || (role.Some? && role.value != t.users[user].role))
    then CannotModifyOwnAccount
    else if RemovesAdminAccess(t.users[user], status, role) && |ActiveAdmins(t)| <= 1 then CannotRemoveLastAdmin
    else Done
  }

  // ---- Runs ----

  datatype Command =
    | UpdateRole(role: Role, given: set<Permission>)
    | AdminUpdate(acting: UserId, user: UserId, status: Option<Status>, newRole: Option<Role>)
    | Register(newUser: UserId, row: User)
    | Activate(user: UserId)

  function Reply(t: Tables, c: Command): Answer {
    match c
    case UpdateRole(role, given) => UpdateRoleAnswer(t, role, given)
    case AdminUpdate(acting, user, status, role) => AdminUpdateAnswer(t, acting, user, status, role)
    case Register(user, _) => if user in t.users then Duplicate else Done
    case Activate(user) => if user in t.users then Done else UserNotFound
  }

  function Next(t: Tables, c: Command): Tables {
    if Reply(t, c) != Done then t
    else match c
      case UpdateRole(role, given) => t.(grants := Replaced(t.grants, role, given))
      case AdminUpdate(_, user, status, role) => t.(users := t.users[user := Updated(t.users[user], status, role)])
      case Register(user, row) => t.(users := t.users[user := row])
      case Activate(user) => t.(users := t.users[user := t.users[user].(status := ACTIVE)])
  }

  function After(t: Tables, run: seq<Command>): Tables {
    if run == [] then t else Next(After(t, run[..|run| - 1]), run[|run| - 1])
  }

  // ---- Neither guard lets go ----

  ghost predicate SomeRoleManages(t: Tables) {
    MANAGE in t.permissions && exists r :: r in t.roles && (r, MANAGE) in t.grants
  }

  ghost predicate SomeActiveAdmin(t: Tables) {
    exists u :: u in t.users && IsActiveAdmin(t.users[u])
  }

  /** Grants belong to roles that exist. */
  ghost predicate GrantsAreRoles(t: Tables) {
    forall g :: g in t.grants ==> g.0 in t.roles
  }

  lemma ManagementSurvivesStep(t: Tables, c: Command)
    requires SomeRoleManages(t) && GrantsAreRoles(t)
    ensures SomeRoleManages(Next(t, c)) && GrantsAreRoles(Next(t, c))
  {
    if c.UpdateRole? && Reply(t, c) == Done {
      var t' := Next(t, c);
      if MANAGE in c.given {
        assert (c.role, MANAGE) in t'.grants;
      } else if (c.role, MANAGE) in t.grants {
        var g :| g in OtherHolders(t, c.role);
        assert (g.0, MANAGE) in t'.grants;
      } else {
        var r :| r in t.roles && (r, MANAGE) in t.grants;
        assert (r, MANAGE) in t'.grants;
      }
    }
  }

  lemma TwoMeansAnother(s: set<UserId>, u: UserId)
    requires |s| > 1
    ensures exists v :: v in s && v != u
  {
    assert |s - {u}| == |s| - if u in s then 1 else 0;
    var v :| v in s - {u};
  }

  lemma AdminSurvivesStep(t: Tables, c: Command)
    requires SomeActiveAdmin(t)
    ensures SomeActiveAdmin(Next(t, c))
  {
    var t' := Next(t, c);
    var u :| u in t.users && IsActiveAdmin(t.users[u]);
    if c.AdminUpdate? && Reply(t, c) == Done && c.user == u && RemovesAdminAccess(t.users[u], c.status, c.newRole) {
      TwoMeansAnother(ActiveAdmins(t), u);
      var v :| v in ActiveAdmins(t) && v != u;
      assert t'.users[v] == t.users[v];
    } else {
      assert u in t'.users && IsActiveAdmin(t'.users[u]);
    }
  }

  /** Through every serial run of role updates, admin user updates, registrations and activations, some
      role keeps `role:permission:manage` and some active admin remains. */
  lemma {:induction false} BothGuardsHoldForever(t: Tables, run: seq<Command>)
    requires SomeRoleManages(t) && GrantsAreRoles(t) && SomeActiveAdmin(t)
    ensures SomeRoleManages(After(t, run)) && GrantsAreRoles(After(t, run)) && SomeActiveAdmin(After(t, run))
    decreases |run|
  {
    if run != [] {
      BothGuardsHoldForever(t, run[..|run| - 1]);
      ManagementSurvivesStep(After(t, run[..|run| - 1]), run[|run| - 1]);
      AdminSurvivesStep(After(t, run[..|run| - 1]), run[|run| - 1]);
    }
  }

  /** The role guard refuses exactly the replacements that would leave no role with the permission. */
  lemma RoleGuardIsExact(t: Tables, role: Role, given: set<Permission>)
    requires SomeRoleManages(t) && GrantsAreRoles(t) && role in t.roles && given <= t.permissions
    ensures UpdateRoleAnswer(t, role, given) == Done
            <==> SomeRoleManages(t.(grants := Replaced(t.grants, role, given)))
  {
    var t' := t.(grants := Replaced(t.grants, role, given));
    if ManagementSurvives(t, role, given) {
      assert t' == Next(t, UpdateRole(role, given));
      ManagementSurvivesStep(t, UpdateRole(role, given));
    } else {
      assert OtherHolders(t, role) == {};
      forall r | r in t.roles ensures (r, MANAGE) !in t'.grants {
        assert (r, MANAGE) !in OtherHolders(t, role);
      }
    }
  }

  /** The admin guard is cautious: when it refuses, the update would have left no active admin if and only
      if the target was the active one. Blocking or demoting an admin who is already inactive is refused
      too while a single active admin remains. */
  lemma AdminGuardIsCautious(t: Tables, acting: UserId, user: UserId, status: Option<Status>, role: Option<Role>)
    requires SomeActiveAdmin(t) && AdminUpdateAnswer(t, acting, user, status, role) == CannotRemoveLastAdmin
    ensures SomeActiveAdmin(t.(users := t.users[user := Updated(t.users[user], status, role)]))
            <==> !IsActiveAdmin(t.users[user])
  {
    var t' := t.(users := t.users[user := Updated(t.users[user], status, role)]);
    if IsActiveAdmin(t.users[user]) {
      forall u | u in t.users && u != user ensures !IsActiveAdmin(t.users[u]) {
        if IsActiveAdmin(t.users[u]) {
          AtLeastTwo(ActiveAdmins(t), u, user);
        }
      }
    } else {
      var u :| u in t.users && IsActiveAdmin(t.users[u]);
      assert t'.users[u] == t.users[u];
    }
  }

  lemma AtLeastTwo(s: set<UserId>, u: UserId, v: UserId)
    requires u in s && v in s && u != v
    ensures |s| > 1
  {
    assert |s - {u}| == |s| - 1 && v in s - {u};
  }

  // ---- Nobody removes himself ----

  /** Every update of the user in the run is his own. */
  ghost predicate OnlyOwnUpdates(run: seq<Command>, user: UserId) {
    forall i :: 0 <= i < |run| && run[i].AdminUpdate? && run[i].user == user ==> run[i].acting == user
  }

  /** Nobody loses his role or his activity by his own commands: as long as nobody else updates him, a user keeps
      the role he has, and his status stays as it is or becomes ACTIVE, in every run. */
  lemma {:induction false} NobodyRemovesHimself(t: Tables, run: seq<Command>, user: UserId)
    requires user in t.users && OnlyOwnUpdates(run, user)
    ensures user in After(t, run).users
    ensures After(t, run).users[user].role == t.users[user].role
    ensures After(t, run).users[user].status in {t.users[user].status, ACTIVE}
    decreases |run|
  {
    if run != [] {
      assert forall i :: 0 <= i < |run| - 1 ==> run[..|run| - 1][i] == run[i];
      NobodyRemovesHimself(t, run[..|run| - 1], user);
      var before, c := After(t, run[..|run| - 1]), run[|run| - 1];
      assert c.AdminUpdate? && c.user == user ==> c.acting == user;
      assert Next(before, c).users[user] == before.users[user]
             || Next(before, c).users[user] == before.users[user].(status := ACTIVE);
    }
  }

  /** Every command that goes through does what it was given to do, to its own target, and nothing else. */
  lemma DoneDoesExactlyThat(t: Tables, c: Command)
    requires Reply(t, c) == Done
    ensures Next(t, c).roles == t.roles && Next(t, c).permissions == t.permissions
    ensures forall role, p :: (role, p) in Next(t, c).grants
              <==> if c.UpdateRole? && c.role == role then p in c.given else (role, p) in t.grants
    ensures Next(t, c).users == match c
              case UpdateRole(_, _) => t.users
              case AdminUpdate(_, user, status, role) =>
                t.users[user := User(if role == None then t.users[user].role else role.value,
                                     if status == None then t.users[user].status else status.value)]
              case Register(user, row) => t.users[user := row]
              case Activate(user) => t.users[user := User(t.users[user].role, ACTIVE)]
  {
    if c.UpdateRole? {
      forall role, p ensures (role, p) in Next(t, c).grants
          <==> if c.role == role then p in c.given else (role, p) in t.grants
      {
        assert Next(t, c).grants == Replaced(t.grants, c.role, c.given);
      }
    }
  }

  // ---- What the two guards together do not give ----

  /** Somebody active has a role that may manage permissions. */
  ghost predicate Administrable(t: Tables) {
    exists u :: u in t.users && CanManage(t, t.users[u])
  }

  predicate CanManage(t: Tables, u: User) {
    u.status == ACTIVE && (u.role, MANAGE) in t.grants
  }

  /** Both guards pass, both of their promises are kept, and yet nobody can manage permissions any more:
      the one role left with the permission has no active user. */
  lemma GuardsDoNotKeepAdministrable()
    ensures exists t, c :: Administrable(t) && SomeRoleManages(t) && SomeActiveAdmin(t) && GrantsAreRoles(t)
                           && Reply(t, c) == Done && !Administrable(Next(t, c))
  {
    var grants := {(ADMIN, MANAGE), ("RECRUITER", MANAGE)};
    var t := Tables({ADMIN, "RECRUITER"}, {MANAGE}, grants, map[1 := User(ADMIN, ACTIVE)]);
    var c := UpdateRole(ADMIN, {});
    assert CanManage(t, t.users[1]) && IsActiveAdmin(t.users[1]);
    assert SomeRoleManages(t) by { assert (ADMIN, MANAGE) in t.grants; }
    assert ("RECRUITER", MANAGE) in OtherHolders(t, ADMIN);
    assert Reply(t, c) == Done;
    assert Next(t, c).users[1].role == ADMIN && (ADMIN, MANAGE) !in Next(t, c).grants;
    assert !Administrable(Next(t, c));
  }

  /** Nor does it take a role update: blocking the only active holder of the one role with the permission
      passes the admin guard, because that role is not ADMIN. */
  lemma BlockingTheLastManagerPassesTheGuard()
    ensures exists t, c: Command :: c.AdminUpdate? && Administrable(t) && SomeRoleManages(t) && SomeActiveAdmin(t)
                           && GrantsAreRoles(t) && Reply(t, c) == Done && !Administrable(Next(t, c))
  {
    var r: Role := "RECRUITER";
    var t := Tables({ADMIN, r}, {MANAGE}, {(r, MANAGE)}, map[1 := User(ADMIN, ACTIVE), 2 := User(r, ACTIVE)]);
    var c := AdminUpdate(1, 2, Some(BLOCKED), None);
    assert CanManage(t, t.users[2]) && IsActiveAdmin(t.users[1]);
    assert SomeRoleManages(t) by { assert (r, MANAGE) in t.grants; }
    assert Reply(t, c) == Done && Next(t, c).users == map[1 := User(ADMIN, ACTIVE), 2 := User(r, BLOCKED)];
    assert (ADMIN, MANAGE) !in t.grants;
  }

  /** Somebody other than `user` can manage. */
  ghost predicate AnotherCanManage(t: Tables, user: UserId) {
    exists u :: u in t.users && u != user && CanManage(t, t.users[u])
  }

  /** Somebody active in another role can manage. */
  ghost predicate AnotherRoleCanManage(t: Tables, role: Role) {
    exists u :: u in t.users && t.users[u].role != role && CanManage(t, t.users[u])
  }

  ghost predicate HasActiveUser(t: Tables, role: Role) {
    exists u :: u in t.users && t.users[u] == User(role, ACTIVE)
  }

  /** Replacing the permissions of `role` leaves somebody able to manage them if and only if the new set has
      the permission and the role an active user, or somebody active in another role already can. */
  lemma UpdateRoleKeepsAdministrableIff(t: Tables, role: Role, given: set<Permission>)
    requires UpdateRoleAnswer(t, role, given) == Done
    ensures Administrable(Next(t, UpdateRole(role, given)))
            <==> (MANAGE in given && HasActiveUser(t, role)) || AnotherRoleCanManage(t, role)
  {
    var t' := Next(t, UpdateRole(role, given));
    if Administrable(t') {
      var u :| u in t'.users && CanManage(t', t'.users[u]);
      if t.users[u].role == role {
        assert t.users[u] == User(role, ACTIVE);
        assert MANAGE in given;
      } else {
        assert (t.users[u].role, MANAGE) in t.grants;
        assert CanManage(t, t.users[u]);
      }
    } else {
      forall u | u in t.users && t.users[u].role != role ensures !CanManage(t, t.users[u]) {
        assert !CanManage(t', t'.users[u]);
      }
      forall u | u in t.users && t.users[u] == User(role, ACTIVE) ensures MANAGE !in given {
        assert !CanManage(t', t'.users[u]);
      }
    }
  }

  /** Updating a user leaves somebody able to manage if and only if the user still can afterwards, or
      somebody else can. */
  lemma AdminUpdateKeepsAdministrableIff(t: Tables, c: Command)
    requires c.AdminUpdate? && Reply(t, c) == Done
    ensures Administrable(Next(t, c))
            <==> CanManage(t, Updated(t.users[c.user], c.status, c.newRole)) || AnotherCanManage(t, c.user)
  {
    var t' := Next(t, c);
    assert forall u :: u in t.users && u != c.user ==> t'.users[u] == t.users[u];
    if Administrable(t') {
      var u :| u in t'.users && CanManage(t', t'.users[u]);
    } else {
      assert !CanManage(t', t'.users[c.user]);
      forall u | u in t.users && u != c.user ensures !CanManage(t, t.users[u]) {
        assert !CanManage(t', t'.users[u]);
      }
    }
  }

  /** What to check before a command so that somebody can still manage permissions after it. */
  ghost predicate LeavesAManager(t: Tables, c: Command) {
    Reply(t, c) == Done ==>
      match c
      case UpdateRole(role, given) => (MANAGE in given && HasActiveUser(t, role)) || AnotherRoleCanManage(t, role)
      case AdminUpdate(_, user, status, role) =>
        CanManage(t, Updated(t.users[user], status, role)) || AnotherCanManage(t, user)
      case _ => true
  }

  lemma CommandKeepsAdministrableIff(t: Tables, c: Command)
    requires Administrable(t)
    ensures Administrable(Next(t, c)) <==> LeavesAManager(t, c)
  {
    if Reply(t, c) == Done {
      match c
      case UpdateRole(role, given) => UpdateRoleKeepsAdministrableIff(t, role, given);
      case AdminUpdate(_, _, _, _) => AdminUpdateKeepsAdministrableIff(t, c);
      case _ =>
        var u :| u in t.users && CanManage(t, t.users[u]);
        assert CanManage(Next(t, c), Next(t, c).users[u]);
    }
  }

  ghost predicate AlwaysAdministrable(t: Tables, run: seq<Command>)
    decreases |run|
  {
    Administrable(After(t, run)) && (run != [] ==> AlwaysAdministrable(t, run[..|run| - 1]))
  }

  ghost predicate EachLeavesAManager(t: Tables, run: seq<Command>)
    decreases |run|
  {
    run != [] ==>
      EachLeavesAManager(t, run[..|run| - 1]) && LeavesAManager(After(t, run[..|run| - 1]), run[|run| - 1])
  }

  /** Over every run, somebody can manage permissions at every moment if and only if every command of the
      run met that condition when it was given. */
  lemma {:induction false} AlwaysAdministrableIff(t: Tables, run: seq<Command>)
    requires Administrable(t)
    ensures AlwaysAdministrable(t, run) <==> EachLeavesAManager(t, run)
    decreases |run|
  {
    hide Administrable, LeavesAManager, Next;
    if run != [] {
      var before := After(t, run[..|run| - 1]);
      AlwaysAdministrableIff(t, run[..|run| - 1]);
      LastIsAdministrable(t, run[..|run| - 1]);
      if Administrable(before) {
        CommandKeepsAdministrableIff(before, run[|run| - 1]);
      }
    }
  }

  lemma LastIsAdministrable(t: Tables, run: seq<Command>)
    ensures AlwaysAdministrable(t, run) ==> Administrable(After(t, run))
  {}

  /** As long as no command takes the permission from the ADMIN role, somebody can always manage. */
  lemma {:induction false} AdministrableWhileAdminManages(t: Tables, run: seq<Command>)
    requires (ADMIN, MANAGE) in t.grants && SomeActiveAdmin(t)
    requires forall i :: 0 <= i < |run| && run[i].UpdateRole? && run[i].role == ADMIN ==> MANAGE in run[i].given
    ensures (ADMIN, MANAGE) in After(t, run).grants && SomeActiveAdmin(After(t, run)) && Administrable(After(t, run))
    decreases |run|
  {
    if run != [] {
      AdministrableWhileAdminManages(t, run[..|run| - 1]);
      AdminSurvivesStep(After(t, run[..|run| - 1]), run[|run| - 1]);
    }
    var after := After(t, run);
    var u :| u in after.users && IsActiveAdmin(after.users[u]);
    assert CanManage(after, after.users[u]);
  }
}

/** Lookups split into their cache check, their database read and their store, interleaved with updates
    split into their write and their cache invalidation. */
module PermissionCache {
  import opened Wrappers

  type Role = string
  type Permission = string
  type Caller = nat

  const TTL := 30_000

  /** The role table as lookups read it; a role it does not have reads as the empty set. */
  type Contents = map<Role, set<Permission>>

  function Read(table: Contents, role: Role): set<Permission> {
    if role in table then table[role] else {}
  }

  /** Besides what the program stores, an entry remembers when it was stored and which versions of the
      table were current when it was read and when it was stored. */
  datatype Entry =
    Entry(permissions: set<Permission>, expiresAt: nat, storedAt: nat, readVersion: nat, storedVersion: nat)

  datatype Pending = Pending(role: Role, permissions: set<Permission>, readVersion: nat)

  /** `versions` lists every state of the table so far, the last one being current; `owed` counts the
      updates that have written but not yet invalidated. */
  datatype System = System(versions: seq<Contents>, cache: map<Role, Entry>, pending: map<Caller, Pending>, owed: nat)

  predicate IsSystem(s: System) {
    |s.versions| > 0
  }

  function Version(s: System): nat
    requires IsSystem(s)
  {
    |s.versions| - 1
  }

  predicate Hit(s: System, role: Role, now: nat) {
    role in s.cache && s.cache[role].expiresAt > now
  }

  datatype Step =
    | Lookup(now: nat, caller: Caller, role: Role)
    | Finish(now: nat, caller: Caller)
    | Write(now: nat, table: Contents)
    | Invalidate(now: nat)

  predicate Enabled(s: System, e: Step) {
    match e
    case Lookup(_, caller, _) => caller !in s.pending
    case Finish(_, caller) => caller in s.pending
    case Write(_, _) => true
    case Invalidate(_) => s.owed > 0
  }

  /** A hit answers at once; a miss reads the table and waits for its store. */
  function Next(s: System, e: Step): (r: System)
    requires IsSystem(s) && Enabled(s, e)
    ensures IsSystem(r)
  {
    match e
    case Lookup(now, caller, role) =>
      if Hit(s, role, now) then s
      else s.(pending := s.pending[caller := Pending(role, Read(s.versions[Version(s)], role), Version(s))])
    case Finish(now, caller) =>
      var p := s.pending[caller];
      s.(cache := s.cache[p.role := Entry(p.permissions, now + TTL, now, p.readVersion, Version(s))],
         pending := s.pending - {caller})
    case Write(_, table) => s.(versions := s.versions + [table], owed := s.owed + 1)
    case Invalidate(_) => s.(cache := map[], owed := s.owed - 1)
  }

  datatype Run = End | Then(step: Step, rest: Run)

  ghost predicate Possible(s: System, now: nat, run: Run)
    decreases run
  {
    run.Then? ==>
      && IsSystem(s) && Enabled(s, run.step) && now <= run.step.now
      && Possible(Next(s, run.step), run.step.now, run.rest)
  }

  ghost function After(s: System, now: nat, run: Run): System
    requires IsSystem(s) && Possible(s, now, run)
    decreases run
  {
    if run.End? then s else After(Next(s, run.step), run.step.now, run.rest)
  }

  function EndOf(now: nat, run: Run): nat
    decreases run
  {
    if run.End? then now else EndOf(run.step.now, run.rest)
  }

  /** What holds of a cached entry, whatever the interleaving. */
  ghost predicate EntryIsSound(s: System, role: Role, e: Entry, now: nat) {
    && e.expiresAt == e.storedAt + TTL && e.storedAt <= now
    && e.readVersion <= e.storedVersion < |s.versions|
    && e.permissions == Read(s.versions[e.readVersion], role)
    && |s.versions| - 1 - s.owed <= e.storedVersion
  }

  predicate PendingIsSound(s: System, p: Pending) {
    p.readVersion < |s.versions| && p.permissions == Read(s.versions[p.readVersion], p.role)
  }

  ghost predicate Sound(s: System, now: nat) {
    && IsSystem(s)
    && (forall role :: role in s.cache ==> EntryIsSound(s, role, s.cache[role], now))
    && (forall c :: c in s.pending ==> PendingIsSound(s, s.pending[c]))
  }

  lemma StepKeepsSound(s: System, e: Step, now: nat)
    requires Sound(s, now) && Enabled(s, e) && now <= e.now
    ensures Sound(Next(s, e), e.now)
  {
    var s' := Next(s, e);
    forall role | role in s'.cache ensures EntryIsSound(s', role, s'.cache[role], e.now) {
      if role in s.cache {
        assert EntryIsSound(s, role, s.cache[role], now);
      }
    }
  }

  lemma {:induction false} EveryInterleavingIsSound(s: System, now: nat, run: Run)
    requires Sound(s, now) && Possible(s, now, run)
    ensures Sound(After(s, now, run), EndOf(now, run))
    decreases run
  {
    if run.Then? {
      StepKeepsSound(s, run.step, now);
      EveryInterleavingIsSound(Next(s, run.step), run.step.now, run.rest);
    }
  }

  function Start(table: Contents): System {
    System([table], map[], map[], 0)
  }

  /** A lookup made now would be answered from the cache with something other than the current table. */
  predicate ServesOther(s: System, role: Role, now: nat) {
    IsSystem(s) && Hit(s, role, now) && s.cache[role].permissions != Read(s.versions[Version(s)], role)
  }

  /** ... although every update has been invalidated. */
  predicate ServesStale(s: System, role: Role, now: nat) {
    s.owed == 0 && ServesOther(s, role, now)
  }

  /** Whatever the interleaving, an answer served from the cache was stored less than 30 seconds earlier and
      is what the table held when the lookup that stored it read it; the store missed at most the updates
      written but not yet invalidated. With none outstanding the answer is wrong exactly when the updates
      written between that read and that store changed the role's permissions; in general, exactly when the
      updates since the read did. */
  lemma ServedAnswersAreRecent(table: Contents, run: Run, role: Role, now: nat)
    requires Possible(Start(table), 0, run) && EndOf(0, run) <= now
    requires Hit(After(Start(table), 0, run), role, now)
    ensures
      var s := After(Start(table), 0, run);
      var e := s.cache[role];
      && e.storedAt <= now < e.storedAt + 30_000
      && e.readVersion <= e.storedVersion < |s.versions| && Version(s) - s.owed <= e.storedVersion
      && e.permissions == Read(s.versions[e.readVersion], role)
      && (s.owed == 0 ==> (e.readVersion == Version(s) <==> e.readVersion == e.storedVersion))
      && (ServesOther(s, role, now)
          <==> Read(s.versions[e.readVersion], role) != Read(s.versions[Version(s)], role))
      && (s.owed == 0 ==>
            (ServesStale(s, role, now)
             <==> Read(s.versions[e.readVersion], role) != Read(s.versions[e.storedVersion], role)))
  {
    EveryInterleavingIsSound(Start(table), 0, run);
    var s := After(Start(table), 0, run);
    assert EntryIsSound(s, role, s.cache[role], EndOf(0, run));
  }

  predicate ServesOldUninvalidated(s: System, role: Role, now: nat) {
    s.owed > 0 && ServesOther(s, role, now) && s.cache[role].readVersion == s.cache[role].storedVersion
  }

  /** While an invalidation is outstanding the old permissions are served without any race between a read and
      its store. */
  lemma OldAnswerUntilInvalidation()
    ensures exists table, run ::
      && Possible(Start(table), 0, run)
      && ServesOldUninvalidated(After(Start(table), 0, run), "R", EndOf(0, run))
  {
    var before: Contents := map["R" := {"p"}];
    var after: Contents := map["R" := {}];
    var e1, e2, e3 := Lookup(1, 0, "R"), Finish(2, 0), Write(3, after);
    var run := Then(e1, Then(e2, Then(e3, End)));
    var s0 := Start(before);
    var s1 := Next(s0, e1);
    assert s1.pending[0] == Pending("R", {"p"}, 0);
    var s2 := Next(s1, e2);
    var s3 := Next(s2, e3);
    assert Possible(s2, 2, Then(e3, End)) && After(s2, 2, Then(e3, End)) == s3;
    assert Possible(s1, 1, Then(e2, Then(e3, End))) && After(s1, 1, Then(e2, Then(e3, End))) == s3;
    assert Possible(s0, 0, run) && After(s0, 0, run) == s3 && EndOf(0, run) == 3;
    assert s3.versions[1] == after && "p" in s3.cache["R"].permissions && "p" !in Read(after, "R");
    assert ServesOldUninvalidated(s3, "R", 3);
  }

  /** Invalidation is not immediate: a lookup that read before an update and stores after its invalidation
      brings the old permissions back, and they are served although nothing is outstanding. */
  lemma StaleAnswerAfterInvalidation()
    ensures exists table, run ::
      Possible(Start(table), 0, run) && ServesStale(After(Start(table), 0, run), "R", EndOf(0, run))
  {
    var before: Contents := map["R" := {"p"}];
    var after: Contents := map["R" := {}];
    var s0 := Start(before);
    var e1, e2, e3, e4 := Lookup(1, 0, "R"), Write(2, after), Invalidate(3), Finish(4, 0);
    var run := Then(e1, Then(e2, Then(e3, Then(e4, End))));
    var s1 := Next(s0, e1);
    assert s1.pending[0] == Pending("R", {"p"}, 0);
    var s2 := Next(s1, e2);
    var s3 := Next(s2, e3);
    var s4 := Next(s3, e4);
    assert Possible(s3, 3, Then(e4, End)) && Possible(s2, 2, Then(e3, Then(e4, End)));
    assert After(s3, 3, Then(e4, End)) == s4;
    assert After(s2, 2, Then(e3, Then(e4, End))) == s4;
    assert After(s1, 1, Then(e2, Then(e3, Then(e4, End)))) == s4;
    assert After(s0, 0, run) == s4;
    assert s4.versions[1] == after && "p" in s4.cache["R"].permissions && "p" !in Read(after, "R");
    assert ServesStale(s4, "R", 4);
    assert EndOf(0, run) == 4;
  }
}

/** The permission service and the two admin handlers, on state updated in place, one call at a time. */
module PermissionHandlers {
  import opened Wrappers
  import R = Rbac
  import C = PermissionCache

  datatype CacheEntry = CacheEntry(expiresAt: nat, permissions: set<R.Permission>)

  class Administration {
    var roles: set<R.Role>
    var permissions: set<R.Permission>
    var grants: set<(R.Role, R.Permission)>
    var users: map<R.UserId, R.User>
    var cache: map<R.Role, CacheEntry>

    constructor (t: R.Tables)
      ensures State() == t && Coherent()
    {
      roles, permissions, grants, users, cache := t.roles, t.permissions, t.grants, t.users, map[];
    }

    function State(): R.Tables
      reads this
    {
      R.Tables(roles, permissions, grants, users)
    }

    function Granted(role: R.Role): set<R.Permission>
      reads `grants
    {
      set g | g in grants && g.0 == role :: g.1
    }

    /** Every cached entry, expired or not, is what the table says. */
    ghost predicate Coherent()
      reads `grants, `cache
    {
      forall role :: role in cache ==> cache[role].permissions == Granted(role)
    }

    /** `getPermissionsForRole`: from the cache or not, a serial lookup answers what the table holds now. */
    method GetPermissionsForRole(now: nat, readAt: nat, role: R.Role) returns (result: set<R.Permission>)
      requires Coherent()
      modifies this`cache
      ensures Coherent()
      ensures result == Granted(role)
      ensures cache == if role in old(cache) && old(cache)[role].expiresAt > now then old(cache)
                       else old(cache)[role := CacheEntry(readAt + 30_000, Granted(role))]
    {
      if role in cache && cache[role].expiresAt > now {
        return cache[role].permissions;
      }
      result := Granted(role);
      cache := cache[role := CacheEntry(readAt + C.TTL, result)];
    }

    method InvalidateCache()
      modifies this`cache
      ensures cache == map[]
    {
      cache := map[];
    }

    /** `replacePermissions`: delete the role's rows, then insert the new ones. */
    method ReplacePermissions(role: R.Role, given: set<R.Permission>)
      modifies this`grants
      ensures grants == R.Replaced(old(grants), role, given)
      ensures forall r, p :: (r, p) in grants <==> if r == role then p in given else (r, p) in old(grants)
    {
      grants := set g | g in grants && g.0 != role;
      grants := grants + set p | p in given :: (role, p);
    }

    method EnsureRbacAdministrationSurvives(role: R.Role, given: set<R.Permission>) returns (ok: bool)
      ensures ok <==> R.ManagementSurvives(State(), role, given)
      ensures ok <==> ("role:permission:manage" in permissions && (role, "role:permission:manage") in grants ==>
                         "role:permission:manage" in given || AnotherRoleManages(role))
    {
      if R.MANAGE !in permissions {
        return true;
      }
      if R.MANAGE in given {
        return true;
      }
      if (role, R.MANAGE) !in grants {
        return true;
      }
      var otherHolders := set g | g in grants && g.1 == R.MANAGE && g.0 != role;
      if otherHolders != {} {
        ghost var g :| g in otherHolders;
        assert (g.0, R.MANAGE) in grants;
      } else {
        assert forall r: R.Role :: (r, R.MANAGE) in grants && r != role ==> (r, R.MANAGE) in otherHolders;
      }
      return |otherHolders| != 0;
    }

    /** Some role other than `role` may manage permissions. */
    ghost predicate AnotherRoleManages(role: R.Role)
      reads `grants
    {
      exists r: R.Role :: r != role && (r, "role:permission:manage") in grants
    }

    /** `UpdateRolePermissionsHandler`: the given permissions become the role's, and nobody else's change, unless the
        role or one of them does not exist, or no other role could manage permissions and this one no longer could. */
    method UpdateRolePermissions(role: R.Role, permissionIds: seq<R.Permission>) returns (answer: R.Answer)
      requires Coherent()
      modifies this
      ensures Coherent()
      ensures answer == R.UpdateRoleAnswer(old(State()), role, set p | p in permissionIds)
      ensures State() == R.Next(old(State()), R.UpdateRole(role, set p | p in permissionIds))
      ensures answer == R.RoleNotFound <==> role !in roles
      ensures answer.PermissionNotFound? <==> role in roles && exists p :: p in permissionIds && p !in permissions
      ensures answer.PermissionNotFound? ==> answer.missing == set p | p in permissionIds && p !in permissions
      ensures answer == R.CannotRemoveLastManager
              <==> && role in roles && (forall p :: p in permissionIds ==> p in permissions)
                   && "role:permission:manage" in permissions && "role:permission:manage" !in permissionIds
                   && (role, "role:permission:manage") in old(grants) && !old(AnotherRoleManages(role))
      ensures answer in {R.Done, R.RoleNotFound, R.CannotRemoveLastManager} || answer.PermissionNotFound?
      ensures roles == old(roles) && permissions == old(permissions) && users == old(users)
      ensures answer != R.Done ==> grants == old(grants) && cache == old(cache)
      ensures answer == R.Done ==> cache == map[]
      ensures answer == R.Done ==>
                forall r, p :: (r, p) in grants <==> if r == role then p in permissionIds else (r, p) in old(grants)
    {
      if role !in roles {
        return R.RoleNotFound;
      }
      var unique := set p | p in permissionIds;
      var existing := unique * permissions;
      R.SmallerMeansMissing(unique, permissions);
      if |existing| != |unique| {
        return R.PermissionNotFound(unique - existing);
      }
      var survives := EnsureRbacAdministrationSurvives(role, unique);
      if !survives {
        return R.CannotRemoveLastManager;
      }
      ReplacePermissions(role, unique);
      InvalidateCache();
      return R.Done;
    }

    /** `AdminUpdateUserStatusHandler`; `revoked` is whether the user's sessions are revoked. Nobody takes his own
        activity or role; and nobody takes an admin's while at most one admin is active. */
    method AdminUpdateUser(acting: R.UserId, user: R.UserId, status: Option<R.Status>, role: Option<R.Role>)
      returns (answer: R.Answer, revoked: bool)
      modifies this`users
      ensures answer == R.Reply(old(State()), R.AdminUpdate(acting, user, status, role))
      ensures State() == R.Next(old(State()), R.AdminUpdate(acting, user, status, role))
      ensures revoked <==> answer == R.Done && (status == Some(R.BLOCKED) || users[user].role != old(users)[user].role)
      ensures answer == R.UserNotFound <==> user !in old(users)
      ensures answer == R.CannotModifyOwnAccount
              <==> && user in old(users) && user == acting
                   && (status in {Some(R.PENDING), Some(R.BLOCKED)} || role !in {None, Some(old(users)[user].role)})
      ensures answer == R.CannotRemoveLastAdmin
              <==> && user in old(users) && answer != R.CannotModifyOwnAccount && old(users)[user].role == "ADMIN"
                   && (status in {Some(R.PENDING), Some(R.BLOCKED)} || role !in {None, Some("ADMIN")})
                   && |set v | v in old(users) && old(users)[v] == R.User("ADMIN", R.ACTIVE)| <= 1
      ensures answer in {R.Done, R.UserNotFound, R.CannotModifyOwnAccount, R.CannotRemoveLastAdmin}
      ensures answer != R.Done ==> users == old(users)
      ensures answer == R.Done ==>
                users == old(users)[user := R.User(if role == None then old(users)[user].role else role.value,
                                                   if status == None then old(users)[user].status else status.value)]
    {
      revoked := false;
      if user !in users {
        answer := R.UserNotFound;
        return;
      }
      var u := users[user];
      var isSelfBlock := status.Some? && status.value != R.ACTIVE;
      var isSelfDemote := role.Some? && role.value != u.role;
      if user == acting && (isSelfBlock || isSelfDemote) {
        answer := R.CannotModifyOwnAccount;
        return;
      }
      var isRemovingAdminAccess := u.role == R.ADMIN && (isSelfBlock || (role.Some? && role.value != R.ADMIN));
      if isRemovingAdminAccess {
        var activeAdmins := |set v | v in users && users[v].status == R.ACTIVE && users[v].role == R.ADMIN|;
        assert (set v | v in users && users[v].status == R.ACTIVE && users[v].role == R.ADMIN)
            == R.ActiveAdmins(State()) == set v | v in users && users[v] == R.User("ADMIN", R.ACTIVE);
        if activeAdmins <= 1 {
          answer := R.CannotRemoveLastAdmin;
          return;
        }
      }
      var isRoleChanging := role.Some? && role.value != u.role;
      if status.Some? {
        u := u.(status := status.value);
      }
      if role.Some? {
        u := u.(role := role.value);
      }
      users := users[user := u];
      answer := R.Done;
      revoked := status == Some(R.BLOCKED) || isRoleChanging;
    }
  }
}
