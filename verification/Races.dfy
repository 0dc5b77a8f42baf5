// What is lost when handlers that check and then write run at once. For each pair of commands that would both go
// through, the orders of their checks and writes that keep the invariant are exactly the serial ones.

module RecruitmentRaces {
  import opened Wrappers
  import opened Orders
  import opened Pipeline
  import R = Recruitment

  // ---- An application and the deletion of its CV ----

  datatype Contest = Contest(id: ApplicationId, user: UserId, job: R.JobId, cv: R.CvId, now: nat)

  function ApplyTicket(t: R.Tables, c: Contest): Option<R.Application> {
    if R.Apply(t, c.id, c.user, c.job, c.cv).outcome == R.Done
    then Some(R.Application(c.user, c.job, Some(c.cv), APPLIED))
    else None
  }

  /** The insert meets the table's unique keys. */
  function InsertApplication(t: R.Tables, c: Contest, row: R.Application): R.Tables {
    if R.HasApplied(t.applications, row.user, row.job) || c.id in t.applications then t
    else t.(applications := t.applications[c.id := row])
  }

  function Applying(c: Contest): Command<R.Tables, R.Application> {
    Command((t: R.Tables) => ApplyTicket(t, c), (t: R.Tables, row: R.Application) => InsertApplication(t, c, row))
  }

  function DeleteTicket(t: R.Tables, c: Contest): Option<R.Cv> {
    if R.DeleteCv(t, c.now, c.user, c.cv).outcome == R.Done && c.cv in t.cvs
    then Some(t.cvs[c.cv].(deletedAt := Some(c.now)))
    else None
  }

  function SaveCv(t: R.Tables, c: Contest, row: R.Cv): R.Tables {
    if c.cv in t.cvs then t.(cvs := t.cvs[c.cv := row]) else t
  }

  function Deleting(c: Contest): Command<R.Tables, R.Cv> {
    Command((t: R.Tables) => DeleteTicket(t, c), (t: R.Tables, row: R.Cv) => SaveCv(t, c, row))
  }

  lemma AppliedAlone(t: R.Tables, c: Contest)
    ensures Alone(t, Applying(c)) == R.Apply(t, c.id, c.user, c.job, c.cv).tables
  {
    assert Applying(c).check(t) == ApplyTicket(t, c);
    ApplyIsTicketAndInsert(t, c);
    hide R.Apply, ApplyTicket, InsertApplication;
  }

  lemma ApplyIsTicketAndInsert(t: R.Tables, c: Contest)
    ensures R.Apply(t, c.id, c.user, c.job, c.cv).tables
            == if ApplyTicket(t, c).Some? then InsertApplication(t, c, ApplyTicket(t, c).value) else t
  {
    hide R.HasApplied;
  }

  lemma DeletedAlone(t: R.Tables, c: Contest)
    ensures Alone(t, Deleting(c)) == R.DeleteCv(t, c.now, c.user, c.cv).tables
  {
    hide R.HasActiveReference;
    assert Deleting(c).check(t) == DeleteTicket(t, c);
  }

  lemma OpenOnDeleted(t: R.Tables, c: Contest)
    requires c.id in t.applications && t.applications[c.id] == R.Application(c.user, c.job, Some(c.cv), APPLIED)
    requires c.cv in t.cvs && t.cvs[c.cv].deletedAt.Some?
    ensures !R.CvsAreSafe(t.cvs, t.applications)
  {
    assert !R.CvIsSafe(t.cvs, t.applications[c.id]);
  }

  /** Whichever write comes last, the other one's is there. */
  lemma BothWrote(t: R.Tables, c: Contest)
    requires R.Apply(t, c.id, c.user, c.job, c.cv).outcome == R.Done
    requires R.DeleteCv(t, c.now, c.user, c.cv).outcome == R.Done
    ensures ApplyTicket(t, c).Some? && DeleteTicket(t, c).Some?
    ensures var last := SaveCv(R.Apply(t, c.id, c.user, c.job, c.cv).tables, c, DeleteTicket(t, c).value);
      !R.CvsAreSafe(last.cvs, last.applications)
    ensures var last := InsertApplication(R.DeleteCv(t, c.now, c.user, c.cv).tables, c, ApplyTicket(t, c).value);
      !R.CvsAreSafe(last.cvs, last.applications)
  {
    hide R.HasApplied, R.HasActiveReference, R.CvsAreSafe;
    OpenOnDeleted(SaveCv(R.Apply(t, c.id, c.user, c.job, c.cv).tables, c, DeleteTicket(t, c).value), c);
    OpenOnDeleted(InsertApplication(R.DeleteCv(t, c.now, c.user, c.cv).tables, c, ApplyTicket(t, c).value), c);
  }

  /** From every sound state in which both would go through: an interleaving leaves an open application holding a
      deleted CV, a serial order never does. */
  lemma OnlySerialOrdersKeepCvSafety(t: R.Tables, o: Order, c: Contest)
    requires R.Sound(t) && R.Apply(t, c.id, c.user, c.job, c.cv).outcome == R.Done
    requires R.DeleteCv(t, c.now, c.user, c.cv).outcome == R.Done
    ensures var after := Play(t, o, Applying(c), Deleting(c));
      R.CvsAreSafe(after.cvs, after.applications) <==> IsSerial(o)
  {
    hide R.Apply, R.DeleteCv, R.CvsAreSafe, ApplyTicket, InsertApplication, DeleteTicket, SaveCv, Play, Alone;
    var applied, deleted := R.Apply(t, c.id, c.user, c.job, c.cv).tables, R.DeleteCv(t, c.now, c.user, c.cv).tables;
    BothWrote(t, c);
    PlayIs(t, o, Applying(c), Deleting(c));
    AppliedAlone(t, c);
    DeletedAlone(t, c);
    R.ApplyKeepsSound(t, c.id, c.user, c.job, c.cv);
    R.DeleteCvKeepsSound(t, c.now, c.user, c.cv);
    DeletedAlone(applied, c);
    AppliedAlone(deleted, c);
    R.DeleteCvKeepsSound(applied, c.now, c.user, c.cv);
    R.ApplyKeepsSound(deleted, c.id, c.user, c.job, c.cv);
  }

  /** There are such states: a published CV of the applicant's and an open job will do. */
  lemma RacesExist()
    ensures exists t, c: Contest :: R.Sound(t) && R.Apply(t, c.id, c.user, c.job, c.cv).outcome == R.Done
                           && R.DeleteCv(t, c.now, c.user, c.cv).outcome == R.Done
  {
    var t := R.NO_ROWS.(cvs := map[1 := R.Cv(7, true, None)], jobs := map[2 := R.Job(8, true, false, false)]);
    var c := Contest(3, 7, 2, 1, 5);
    assert R.Sound(t) && !R.HasActiveReference(t.applications, 1) && !R.HasApplied(t.applications, 7, 2);
    assert R.Apply(t, c.id, c.user, c.job, c.cv).outcome == R.Done;
    assert R.DeleteCv(t, c.now, c.user, c.cv).outcome == R.Done;
  }

  // ---- Two interviews of one application ----

  datatype Booking = Booking(now: nat, id: R.InterviewId, recruiter: UserId, application: ApplicationId, at: nat,
                             location: Option<string>, meetingLink: Option<string>)

  function Booked(t: R.Tables, b: Booking): R.Reply {
    R.Schedule(t, b.now, b.id, b.recruiter, b.application, b.at, b.location, b.meetingLink)
  }

  function BookTicket(t: R.Tables, b: Booking): Option<R.Interview> {
    if Booked(t, b).outcome == R.Done
    then Some(R.Interview(b.application, b.at, b.location, b.meetingLink, R.SCHEDULED))
    else None
  }

  function InsertInterview(t: R.Tables, b: Booking, row: R.Interview): R.Tables {
    if b.id in t.interviews then t else t.(interviews := t.interviews[b.id := row])
  }

  function BookingOf(b: Booking): Command<R.Tables, R.Interview> {
    Command((t: R.Tables) => BookTicket(t, b), (t: R.Tables, row: R.Interview) => InsertInterview(t, b, row))
  }

  lemma AloneIsBooked(t: R.Tables, b: Booking)
    ensures Alone(t, BookingOf(b)) == Booked(t, b).tables
  {
    hide R.HasActiveInterview;
    assert BookingOf(b).check(t) == BookTicket(t, b);
  }

  lemma BothBooked(t: R.Tables, b: Booking, d: Booking)
    requires Booked(t, b).outcome == R.Done && Booked(t, d).outcome == R.Done
    requires b.id != d.id && b.application == d.application
    ensures BookTicket(t, d).Some?
    ensures !R.OneActiveInterview(InsertInterview(Booked(t, b).tables, d, BookTicket(t, d).value).interviews)
  {
    hide R.HasActiveInterview, R.Interviewable;
    var after := InsertInterview(Booked(t, b).tables, d, BookTicket(t, d).value).interviews;
    assert b.id in after && d.id in after && R.Compete(after[b.id], after[d.id]);
  }

  /** Nothing but the check keeps a second active interview out: no unique key does. */
  lemma OnlySerialOrdersKeepOneInterview(t: R.Tables, o: Order, b: Booking, d: Booking)
    requires R.Sound(t) && Booked(t, b).outcome == R.Done && Booked(t, d).outcome == R.Done
    requires b.id != d.id && b.application == d.application
    ensures R.OneActiveInterview(Play(t, o, BookingOf(b), BookingOf(d)).interviews) <==> IsSerial(o)
  {
    hide R.Schedule, R.OneActiveInterview, BookTicket, InsertInterview, Play, Alone;
    BothBooked(t, b, d);
    BothBooked(t, d, b);
    PlayIs(t, o, BookingOf(b), BookingOf(d));
    AloneIsBooked(t, b);
    AloneIsBooked(t, d);
    AloneIsBooked(Booked(t, b).tables, d);
    AloneIsBooked(Booked(t, d).tables, b);
    BookingKeepsSound(t, b);
    BookingKeepsSound(t, d);
    BookingKeepsSound(Booked(t, b).tables, d);
    BookingKeepsSound(Booked(t, d).tables, b);
  }

  lemma BookingKeepsSound(t: R.Tables, b: Booking)
    requires R.Sound(t)
    ensures R.Sound(Booked(t, b).tables)
  {
    R.ScheduleKeepsSound(t, b.now, b.id, b.recruiter, b.application, b.at, b.location, b.meetingLink);
  }

  // ---- Two moves of one application ----

  /** A recruiter's update or the candidate's withdrawal. */
  datatype Move = Update(recruiter: UserId, to: ApplicationStatus) | Withdrawal(user: UserId)

  function Moved(t: R.Tables, a: ApplicationId, m: Move): R.Reply {
    match m
    case Update(recruiter, to) => R.UpdateStatus(t, recruiter, a, to)
    case Withdrawal(user) => R.Withdraw(t, user, a)
  }

  function Entry(t: R.Tables, a: ApplicationId, m: Move): HistoryRow
    requires a in t.applications
  {
    match m
    case Update(recruiter, to) => HistoryRow(a, t.applications[a].status, to, recruiter)
    case Withdrawal(user) => HistoryRow(a, t.applications[a].status, WITHDRAWN, user)
  }

  /** The status a move starts from is the one its handler has loaded. */
  function MoveTicket(t: R.Tables, a: ApplicationId, m: Move): Option<HistoryRow> {
    if Moved(t, a, m).outcome == R.Done && a in t.applications then Some(Entry(t, a, m)) else None
  }

  function SaveWithHistory(t: R.Tables, a: ApplicationId, row: HistoryRow): R.Tables {
    if a in t.applications
    then t.(applications := t.applications[a := t.applications[a].(status := row.to)], history := t.history + [row])
    else t
  }

  function Moving(a: ApplicationId, m: Move): Command<R.Tables, HistoryRow> {
    Command((t: R.Tables) => MoveTicket(t, a, m), (t: R.Tables, row: HistoryRow) => SaveWithHistory(t, a, row))
  }

  lemma AloneIsMoved(t: R.Tables, a: ApplicationId, m: Move)
    ensures Alone(t, Moving(a, m)) == Moved(t, a, m).tables
  {
    assert Moving(a, m).check(t) == MoveTicket(t, a, m);
  }

  /** A row that starts where another row of the same log, before it, did not end explains nothing. */
  lemma BrokenChain(log: seq<HistoryRow>, p: HistoryRow, q: HistoryRow, applicant: UserId, status: ApplicationStatus)
    requires p.to != q.from
    ensures !Explains(log + [p] + [q], applicant, status)
  {
    assert (log + [p] + [q])[..|log| + 1] == log + [p];
    assert (log + [p])[|log|] == p;
  }

  lemma TwoRowsOfOneStatus(t: R.Tables, a: ApplicationId, p: HistoryRow, q: HistoryRow)
    requires a in t.applications && p.application == q.application == a && p.to != q.from
    ensures var after := SaveWithHistory(SaveWithHistory(t, a, p), a, q);
      !R.HistoryIsFaithful(after.history, after.applications)
  {
    hide Log, Explains;
    var after := SaveWithHistory(SaveWithHistory(t, a, p), a, q);
    assert after.history == t.history + [p] + [q] && a in after.applications;
    LogGrows(t.history, p, a);
    LogGrows(t.history + [p], q, a);
    BrokenChain(Log(t.history, a), p, q, after.applications[a].user, after.applications[a].status);
  }

  lemma BothMoved(t: R.Tables, a: ApplicationId, m: Move, n: Move)
    requires Moved(t, a, m).outcome == R.Done && Moved(t, a, n).outcome == R.Done
    ensures MoveTicket(t, a, n).Some?
    ensures var after := SaveWithHistory(Moved(t, a, m).tables, a, MoveTicket(t, a, n).value);
      !R.HistoryIsFaithful(after.history, after.applications)
  {
    hide R.HistoryIsFaithful, Log, Explains;
    assert a in t.applications;
    var p, q := Entry(t, a, m), Entry(t, a, n);
    assert p.to != q.from;
    assert Moved(t, a, m).tables == SaveWithHistory(t, a, p);
    TwoRowsOfOneStatus(t, a, p, q);
  }

  /** Two moves that both start from the status they loaded leave a log that no longer explains the status. */
  lemma OnlySerialOrdersKeepTheLogFaithful(t: R.Tables, o: Order, a: ApplicationId, m: Move, n: Move)
    requires R.Sound(t) && Moved(t, a, m).outcome == R.Done && Moved(t, a, n).outcome == R.Done
    ensures var after := Play(t, o, Moving(a, m), Moving(a, n));
      R.HistoryIsFaithful(after.history, after.applications) <==> IsSerial(o)
  {
    hide R.HistoryIsFaithful, Moved, MoveTicket, SaveWithHistory, Play, Alone;
    BothMoved(t, a, m, n);
    BothMoved(t, a, n, m);
    PlayIs(t, o, Moving(a, m), Moving(a, n));
    AloneIsMoved(t, a, m);
    AloneIsMoved(t, a, n);
    AloneIsMoved(Moved(t, a, m).tables, a, n);
    AloneIsMoved(Moved(t, a, n).tables, a, m);
    MoveKeepsSound(t, a, m);
    MoveKeepsSound(t, a, n);
    MoveKeepsSound(Moved(t, a, m).tables, a, n);
    MoveKeepsSound(Moved(t, a, n).tables, a, m);
  }

  lemma MoveKeepsSound(t: R.Tables, a: ApplicationId, m: Move)
    requires R.Sound(t)
    ensures R.Sound(Moved(t, a, m).tables)
  {
    hide R.Sound;
    match m
    case Update(recruiter, to) => R.UpdateStatusKeepsSound(t, recruiter, a, to);
    case Withdrawal(user) => R.WithdrawKeepsSound(t, user, a);
  }
}

module TokenRaces {
  import opened Wrappers
  import opened Orders
  import opened T = TokenLifecycle

  /** The lookup and the guards, then the revocation and the new token. */
  function Refreshing(c: Call, now: nat): Command<Store, UserId>
    requires c.RefreshTokens?
  {
    Orders.Command(
      (s: Store) => if RefreshGuard(s, c, now) == T.Done && c.subject.Some? then Some(c.subject.value) else None,
      (s: Store, user: UserId) =>
        Create(RevokeByHash(s, user, c.hash), c.newHash, Refresh(user, c.newExpiresAt, false)))
  }

  predicate Live(c: Call, h: Hash, user: UserId, s: Store, now: nat) {
    c.RefreshTokens? && c.hash == h && c.subject == Some(user) && now <= c.newExpiresAt
    && c.newHash !in s.tokens && RefreshGuard(s, c, now) == T.Done
  }

  /** Two refreshes of one token that both find it valid before either has revoked it turn one session into
      two; one after the other they keep the number. */
  lemma OnlySerialOrdersConserveSessions(s: Store, o: Order, c: Call, d: Call, h: Hash, user: UserId, now: nat)
    requires Live(c, h, user, s, now) && Live(d, h, user, s, now) && c.newHash != d.newHash
    ensures var after := Play(s, o, Refreshing(c, now), Refreshing(d, now));
      |Sessions(after, user, now)| == |Sessions(s, user, now)| + if IsSerial(o) then 0 else 1
  {
    var after := Play(s, o, Refreshing(c, now), Refreshing(d, now));
    PlayIs(s, o, Refreshing(c, now), Refreshing(d, now));
    RefreshedAlone(s, c, d, h, user, now);
    RefreshedAlone(s, d, c, h, user, now);
    hide Play, Alone, Written, Sessions, Refreshing;
    if o == ABAB || o == BAAB {
      SecondSession(Sessions(s, user, now), Sessions(after, user, now), h, c.newHash, d.newHash);
    } else if o == ABBA || o == BABA {
      SecondSession(Sessions(s, user, now), Sessions(after, user, now), h, d.newHash, c.newHash);
    } else if o == AABB {
      Swapped(Sessions(s, user, now), h, c.newHash);
    } else {
      Swapped(Sessions(s, user, now), h, d.newHash);
    }
  }

  lemma SecondSession(before: set<Hash>, after: set<Hash>, h: Hash, g: Hash, k: Hash)
    requires h in before && g !in before && k !in before && g != k
    requires after == before - {h} + {g} + {k}
    ensures |after| == |before| + 1
  {
    Swapped(before, h, g);
  }

  /** What `c` leaves when it runs first, and what `d` then does: nothing if it looks now, a second session if it
      has looked before. */
  lemma RefreshedAlone(s: Store, c: Call, d: Call, h: Hash, user: UserId, now: nat)
    requires Live(c, h, user, s, now) && Live(d, h, user, s, now) && c.newHash != d.newHash
    ensures
      var before, first := Sessions(s, user, now), Alone(s, Refreshing(c, now));
      && h in before && c.newHash !in before && d.newHash !in before
      && Sessions(first, user, now) == before - {h} + {c.newHash}
      && Alone(first, Refreshing(d, now)) == first
      && Sessions(Written(first, Refreshing(d, now), Refreshing(d, now).check(s)), user, now)
         == before - {h} + {c.newHash} + {d.newHash}
  {
    var first := Alone(s, Refreshing(c, now));
    assert first.tokens
           == s.tokens[h := s.tokens[h].(revoked := true)][c.newHash := Refresh(user, c.newExpiresAt, false)];
    assert RefreshGuard(first, d, now) != T.Done;
    var second := Written(first, Refreshing(d, now), Refreshing(d, now).check(s));
    assert second.tokens == first.tokens[h := first.tokens[h]][d.newHash := Refresh(user, d.newExpiresAt, false)];
  }
}

module RbacRaces {
  import opened Wrappers
  import opened Orders
  import B = Rbac

  // ---- Two updates that each take an admin away ----

  predicate TakesAdmin(t: B.Tables, c: B.Command) {
    && c.AdminUpdate? && B.Reply(t, c) == B.Done && c.user in t.users && B.IsActiveAdmin(t.users[c.user])
    && B.RemovesAdminAccess(t.users[c.user], c.status, c.newRole)
  }

  /** The user loaded and changed, then saved. */
  function Updating(c: B.Command): Command<B.Tables, B.User>
    requires c.AdminUpdate?
  {
    Orders.Command(
      (t: B.Tables) =>
        if B.Reply(t, c) == B.Done && c.user in t.users
        then Some(B.Updated(t.users[c.user], c.status, c.newRole))
        else None,
      (t: B.Tables, row: B.User) => t.(users := t.users[c.user := row]))
  }

  lemma AloneIsUpdated(t: B.Tables, c: B.Command)
    requires c.AdminUpdate?
    ensures Alone(t, Updating(c)) == B.Next(t, c)
  {}

  /** Taking two active admins away at once leaves one if and only if there is a third; in a serial order the
      count of the second check sees the first write. */
  lemma AdminsSurviveIff(t: B.Tables, o: Order, c: B.Command, d: B.Command)
    requires TakesAdmin(t, c) && TakesAdmin(t, d) && c.user != d.user
    ensures B.SomeActiveAdmin(Play(t, o, Updating(c), Updating(d)))
            <==> IsSerial(o) || B.ActiveAdmins(t) != {c.user, d.user}
  {
    PlayIs(t, o, Updating(c), Updating(d));
    var after := Play(t, o, Updating(c), Updating(d));
    if IsSerial(o) {
      hide Play, Alone, Updating, B.Next;
      assert B.SomeActiveAdmin(t);
      AloneIsUpdated(t, c);
      AloneIsUpdated(t, d);
      AloneIsUpdated(B.Next(t, c), d);
      AloneIsUpdated(B.Next(t, d), c);
      B.AdminSurvivesStep(t, c);
      B.AdminSurvivesStep(t, d);
      B.AdminSurvivesStep(B.Next(t, c), d);
      B.AdminSurvivesStep(B.Next(t, d), c);
    } else {
      BothTaken(t, c, d, after);
    }
  }

  lemma BothTaken(t: B.Tables, c: B.Command, d: B.Command, after: B.Tables)
    requires TakesAdmin(t, c) && TakesAdmin(t, d) && c.user != d.user
    requires after.users == t.users[c.user := B.Updated(t.users[c.user], c.status, c.newRole)]
                                   [d.user := B.Updated(t.users[d.user], d.status, d.newRole)]
    ensures B.SomeActiveAdmin(after) <==> B.ActiveAdmins(t) != {c.user, d.user}
  {
    if B.ActiveAdmins(t) == {c.user, d.user} {
      forall u | u in after.users ensures !B.IsActiveAdmin(after.users[u]) {
        assert u in t.users && B.IsActiveAdmin(t.users[u]) ==> u in B.ActiveAdmins(t);
      }
    } else {
      assert {c.user, d.user} <= B.ActiveAdmins(t);
      var u :| u in B.ActiveAdmins(t) && u != c.user && u != d.user;
      assert after.users[u] == t.users[u];
    }
  }

  // ---- Two role updates that each take the permission away ----

  predicate TakesManage(t: B.Tables, c: B.Command) {
    c.UpdateRole? && B.Reply(t, c) == B.Done && (c.role, B.MANAGE) in t.grants && B.MANAGE !in c.given
  }

  function Replacing(c: B.Command): Command<B.Tables, set<B.Permission>>
    requires c.UpdateRole?
  {
    Orders.Command(
      (t: B.Tables) => if B.Reply(t, c) == B.Done then Some(c.given) else None,
      (t: B.Tables, given: set<B.Permission>) => t.(grants := B.Replaced(t.grants, c.role, given)))
  }

  lemma AloneIsReplaced(t: B.Tables, c: B.Command)
    requires c.UpdateRole?
    ensures Alone(t, Replacing(c)) == B.Next(t, c)
  {}

  /** Some third role has the permission. */
  ghost predicate ThirdRoleManages(t: B.Tables, c: B.Command, d: B.Command)
    requires c.UpdateRole? && d.UpdateRole?
  {
    exists r :: r in t.roles && r != c.role && r != d.role && (r, B.MANAGE) in t.grants
  }

  /** The same for roles: taking the permission from two roles at once leaves it to some role if and only if a
      third has it. */
  lemma ManagementSurvivesIff(t: B.Tables, o: Order, c: B.Command, d: B.Command)
    requires B.SomeRoleManages(t) && B.GrantsAreRoles(t)
    requires TakesManage(t, c) && TakesManage(t, d) && c.role != d.role
    ensures B.SomeRoleManages(Play(t, o, Replacing(c), Replacing(d))) <==> IsSerial(o) || ThirdRoleManages(t, c, d)
  {
    PlayIs(t, o, Replacing(c), Replacing(d));
    if IsSerial(o) {
      hide Play, Alone, Replacing, B.Next;
      AloneIsReplaced(t, c);
      AloneIsReplaced(t, d);
      AloneIsReplaced(B.Next(t, c), d);
      AloneIsReplaced(B.Next(t, d), c);
      B.ManagementSurvivesStep(t, c);
      B.ManagementSurvivesStep(t, d);
      B.ManagementSurvivesStep(B.Next(t, c), d);
      B.ManagementSurvivesStep(B.Next(t, d), c);
    } else {
      BothReplaced(t, c, d, Play(t, o, Replacing(c), Replacing(d)));
    }
  }

  lemma BothReplaced(t: B.Tables, c: B.Command, d: B.Command, after: B.Tables)
    requires B.SomeRoleManages(t)
    requires TakesManage(t, c) && TakesManage(t, d) && c.role != d.role
    requires after == t.(grants := B.Replaced(B.Replaced(t.grants, c.role, c.given), d.role, d.given))
             || after == t.(grants := B.Replaced(B.Replaced(t.grants, d.role, d.given), c.role, c.given))
    ensures B.SomeRoleManages(after) <==> ThirdRoleManages(t, c, d)
  {
    assert (c.role, B.MANAGE) !in after.grants && (d.role, B.MANAGE) !in after.grants;
    forall r | r != c.role && r != d.role
      ensures (r, B.MANAGE) in after.grants <==> (r, B.MANAGE) in t.grants
    {}
  }
}
