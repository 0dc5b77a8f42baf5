// The recruitment lifecycle as one transition system: applications with their status history, the CVs
// they were made with, the interviews scheduled for them and the conversations opened from them.

/** application-status.vo.ts, and the two other places that spell out which statuses are final. */
module Pipeline {

  datatype ApplicationStatus =
    APPLIED | SCREENING | SHORTLISTED | INTERVIEW | OFFER | HIRED | REJECTED | WITHDRAWN

  function ForwardTransitions(s: ApplicationStatus): seq<ApplicationStatus> {
    match s
    case APPLIED => [SCREENING, REJECTED]
    case SCREENING => [SHORTLISTED, REJECTED]
    case SHORTLISTED => [INTERVIEW, REJECTED]
    case INTERVIEW => [OFFER, REJECTED]
    case OFFER => [HIRED, REJECTED]
    case HIRED => []
    case REJECTED => []
    case WITHDRAWN => []
  }

  predicate IsTerminal(s: ApplicationStatus) {
    |ForwardTransitions(s)| == 0
  }

  predicate CanTransition(from: ApplicationStatus, to: ApplicationStatus) {
    to in ForwardTransitions(from)
  }

  /** The interview module's list of statuses it refuses to work on. */
  const NOT_INTERVIEWABLE := [HIRED, REJECTED, WITHDRAWN]

  /** The `notIn` list of the CV repository's active-reference query. */
  const NOT_HOLDING_A_CV := [HIRED, REJECTED, WITHDRAWN]

  /** The chat module's only eligible status. */
  const ELIGIBLE_FOR_CHAT := HIRED

  /** The three copies of the terminal set agree, so a status the pipeline can still move is exactly one
      that may be interviewed and exactly one that holds its CV; the status a conversation needs is final. */
  lemma TerminalSetsAgree(s: ApplicationStatus)
    ensures IsTerminal(s) <==> s in NOT_INTERVIEWABLE
    ensures IsTerminal(s) <==> s in NOT_HOLDING_A_CV
    ensures s == ELIGIBLE_FOR_CHAT ==> forall to :: !CanTransition(s, to)
  {
    match s {
      case APPLIED => assert SCREENING in ForwardTransitions(s);
      case _ =>
    }
  }

  /** How far along the pipeline a status is. */
  function Rank(s: ApplicationStatus): (r: nat)
    ensures r <= 5
    ensures r == 5 <==> IsTerminal(s)
  {
    match s
    case APPLIED => 0
    case SCREENING => 1
    case SHORTLISTED => 2
    case INTERVIEW => 3
    case OFFER => 4
    case _ => 5
  }

  /** The transitions spelled out: from a status that is not final, to the next rung of the ladder or to REJECTED.
      WITHDRAWN is nobody's transition; it has a method of its own. */
  lemma TransitionIff(from: ApplicationStatus, to: ApplicationStatus)
    ensures CanTransition(from, to)
      <==> && from !in {HIRED, REJECTED, WITHDRAWN}
           && (to == REJECTED || (to !in {REJECTED, WITHDRAWN} && Rank(to) == Rank(from) + 1))
    ensures IsTerminal(from) <==> from in {HIRED, REJECTED, WITHDRAWN}
    ensures from !in {REJECTED, WITHDRAWN}
            ==> [APPLIED, SCREENING, SHORTLISTED, INTERVIEW, OFFER, HIRED][Rank(from)] == from
  {
    match from {
      case APPLIED => assert SCREENING in ForwardTransitions(from);
      case _ =>
    }
  }

  type ApplicationId = nat
  type UserId = nat

  /** One ApplicationStatusHistory row. */
  datatype HistoryRow =
    HistoryRow(application: ApplicationId, from: ApplicationStatus, to: ApplicationStatus, changedBy: UserId)

  /** The rows of one application, in the order they were written. */
  function Log(history: seq<HistoryRow>, a: ApplicationId): (r: seq<HistoryRow>)
    ensures forall i :: 0 <= i < |r| ==> r[i].application == a
  {
    if history == [] then []
    else
      var last := history[|history| - 1];
      Log(history[..|history| - 1], a) + if last.application == a then [last] else []
  }

  /** A recruiter's forward move, or the candidate's own withdrawal from a status that is not final. */
  predicate IsLegalMove(row: HistoryRow, applicant: UserId) {
    if row.to == WITHDRAWN then row.changedBy == applicant && !IsTerminal(row.from) else CanTransition(row.from, row.to)
  }

  /** `log` explains how an application came from APPLIED to `status`, one legal move after another. */
  predicate Explains(log: seq<HistoryRow>, applicant: UserId, status: ApplicationStatus) {
    if log == [] then status == APPLIED
    else
      var last := log[|log| - 1];
      last.to == status && IsLegalMove(last, applicant) && Explains(log[..|log| - 1], applicant, last.from)
  }

  lemma LogGrows(history: seq<HistoryRow>, row: HistoryRow, a: ApplicationId)
    ensures Log(history + [row], a) == Log(history, a) + if row.application == a then [row] else []
  {
    assert (history + [row])[..|history|] == history;
  }

  lemma {:induction false} NoRowsNoLog(history: seq<HistoryRow>, a: ApplicationId)
    requires forall i :: 0 <= i < |history| ==> history[i].application != a
    ensures Log(history, a) == []
  {
    if history != [] {
      NoRowsNoLog(history[..|history| - 1], a);
    }
  }

  lemma ExplanationGrows(log: seq<HistoryRow>, row: HistoryRow, applicant: UserId)
    requires Explains(log, applicant, row.from) && IsLegalMove(row, applicant)
    ensures Explains(log + [row], applicant, row.to)
  {
    assert (log + [row])[..|log|] == log;
  }

  /** What an explaining log looks like: it starts from APPLIED, each row starts where the one before it
      ended, the rank goes up with every row, so only the last row can reach a final status and there
      are never more rows than the rank of the status reached, five at most. */
  lemma {:induction false} ExplainingLogShape(log: seq<HistoryRow>, applicant: UserId, status: ApplicationStatus)
    requires Explains(log, applicant, status)
    ensures |log| <= Rank(status)
    ensures log != [] ==> log[0].from == APPLIED && log[|log| - 1].to == status
    ensures forall i :: 0 <= i < |log| - 1 ==> log[i].to == log[i + 1].from && !IsTerminal(log[i].to)
    ensures forall i, j :: 0 <= i < j < |log| ==> Rank(log[i].to) < Rank(log[j].to)
    ensures forall i :: 0 <= i < |log| ==> Rank(log[i].to) <= Rank(status)
    ensures forall i :: 0 <= i < |log| && log[i].to == WITHDRAWN ==> log[i].changedBy == applicant
  {
    if log != [] {
      var last, earlier := log[|log| - 1], log[..|log| - 1];
      ExplainingLogShape(earlier, applicant, last.from);
      LegalMovesClimb(last, applicant);
      hide Rank, IsTerminal, IsLegalMove;
      assert forall i :: 0 <= i < |earlier| ==> log[i] == earlier[i];
    }
  }

  lemma LegalMovesClimb(row: HistoryRow, applicant: UserId)
    requires IsLegalMove(row, applicant)
    ensures Rank(row.from) < Rank(row.to) && !IsTerminal(row.from)
    ensures row.to == WITHDRAWN ==> row.changedBy == applicant
  {}
}

module Recruitment {
  import opened Wrappers
  import opened Pipeline

  type CvId = nat
  type JobId = nat
  type InterviewId = nat
  type ConversationId = nat

  datatype Cv = Cv(owner: UserId, published: bool, deletedAt: Option<nat>)

  /** What a job lookup answers at the moment it is asked; a job it does not find is not in the map. */
  datatype Job = Job(postedBy: UserId, isOpen: bool, isExpired: bool, isDeleted: bool)

  datatype Application = Application(user: UserId, job: JobId, cv: Option<CvId>, status: ApplicationStatus)

  datatype InterviewStatus = SCHEDULED | RESCHEDULED | COMPLETED | CANCELLED | NO_SHOW

  datatype Interview = Interview(application: ApplicationId, scheduledAt: nat, location: Option<string>,
                                 meetingLink: Option<string>, status: InterviewStatus)

  datatype Conversation = Conversation(job: JobId, application: ApplicationId, candidate: UserId, recruiter: UserId)

  datatype Tables = Tables(
    cvs: map<CvId, Cv>,
    jobs: map<JobId, Job>,
    applications: map<ApplicationId, Application>,
    history: seq<HistoryRow>,
    interviews: map<InterviewId, Interview>,
    conversations: map<ConversationId, Conversation>)

  const NO_ROWS := Tables(map[], map[], map[], [], map[], map[])

  datatype Error =
    | CvNotFound | CvOwnership | CvAlreadyPublished | CvReferencedByActiveApplication
    | JobNotFound | JobNotAccepting | JobExpired | JobRemoved | CvNotPublished | ReferencedCvDeleted
    | AlreadyApplied | ApplicationNotFound | AccessDenied | InvalidTransition
    | NotInterviewable | TimeInPast | AlreadyScheduled | PlaceRequired | InterviewNotFound
    | CannotRescheduleCancelled | AlreadyCancelled | NotActionable | NotHired | DuplicateKey

  datatype Outcome = Done | Refused(error: Error)

  datatype Reply = Reply(tables: Tables, outcome: Outcome)

  function Refuse(t: Tables, e: Error): Reply {
    Reply(t, Refused(e))
  }

  // ---- CVs ----

  const RETENTION := 30 * 24 * 60 * 60 * 1000

  predicate CvVisible(t: Tables, id: CvId) {
    id in t.cvs && t.cvs[id].deletedAt.None?
  }

  predicate HoldsCv(a: Application, id: CvId) {
    a.cv == Some(id) && a.status !in NOT_HOLDING_A_CV
  }

  predicate HasActiveReference(apps: map<ApplicationId, Application>, id: CvId) {
    exists a :: a in apps && HoldsCv(apps[a], id)
  }

  function CreateCv(t: Tables, id: CvId, user: UserId): Reply {
    if id in t.cvs then Refuse(t, DuplicateKey)
    else Reply(t.(cvs := t.cvs[id := Cv(user, true, None)]), Done)
  }

  function PublishCv(t: Tables, user: UserId, id: CvId): Reply {
    if !CvVisible(t, id) then Refuse(t, CvNotFound)
    else if t.cvs[id].owner != user then Refuse(t, CvOwnership)
    else if t.cvs[id].published then Refuse(t, CvAlreadyPublished)
    else Reply(t.(cvs := t.cvs[id := t.cvs[id].(published := true)]), Done)
  }

  function DeleteCv(t: Tables, now: nat, user: UserId, id: CvId): Reply {
    if !CvVisible(t, id) then Refuse(t, CvNotFound)
    else if t.cvs[id].owner != user then Refuse(t, CvOwnership)
    else if HasActiveReference(t.applications, id) then Refuse(t, CvReferencedByActiveApplication)
    else Reply(SoftDelete(t, now, id), Done)
  }

  function SoftDelete(t: Tables, now: nat, id: CvId): Tables
    requires id in t.cvs
  {
    t.(cvs := t.cvs[id := t.cvs[id].(deletedAt := Some(now))])
  }

  /** `deletedAt: { not: null, lt: cutoff }`. */
  predicate PastRetention(t: Tables, now: nat, id: CvId) {
    id in t.cvs && t.cvs[id].deletedAt.Some? && t.cvs[id].deletedAt.value < now as int - RETENTION
  }

  /** `onDelete: SetNull` on the application's CV. */
  function WithoutCv(a: Application, gone: set<CvId>): Application {
    if a.cv.Some? && a.cv.value in gone then a.(cv := None) else a
  }

  /** Rows of the CVs in `gone` deleted. */
  function DropCvs(t: Tables, gone: set<CvId>): Tables {
    t.(cvs := t.cvs - gone,
       applications := map a | a in t.applications :: WithoutCv(t.applications[a], gone))
  }

  function Purgeable(t: Tables, now: nat): set<CvId> {
    set id | id in t.cvs && PastRetention(t, now, id)
  }

  /** The rows whose own delete throws stay. */
  function PurgeDeletedCvs(t: Tables, now: nat, failing: set<CvId>): Reply {
    Reply(DropCvs(t, Purgeable(t, now) - failing), Done)
  }

  lemma DroppingNothing(t: Tables)
    ensures DropCvs(t, {}) == t
  {
    assert DropCvs(t, {}).applications == t.applications;
  }

  /** Deleting rows one by one adds up to deleting them all. */
  lemma DroppingOneMore(t: Tables, gone: set<CvId>, id: CvId)
    ensures DropCvs(DropCvs(t, gone), {id}) == DropCvs(t, gone + {id})
  {
    assert t.cvs - gone - {id} == t.cvs - (gone + {id});
    assert DropCvs(DropCvs(t, gone), {id}).applications == DropCvs(t, gone + {id}).applications;
  }

  // ---- Applications ----

  predicate HasApplied(apps: map<ApplicationId, Application>, user: UserId, job: JobId) {
    exists a :: a in apps && apps[a].user == user && apps[a].job == job
  }

  function Apply(t: Tables, id: ApplicationId, user: UserId, job: JobId, cv: CvId): Reply {
    if job !in t.jobs then Refuse(t, JobNotFound)
    else if !CvVisible(t, cv) then Refuse(t, CvNotFound)
    else if !t.jobs[job].isOpen then Refuse(t, JobNotAccepting)
    else if t.jobs[job].isExpired then Refuse(t, JobExpired)
    else if t.jobs[job].isDeleted then Refuse(t, JobRemoved)
    else if !t.cvs[cv].published then Refuse(t, CvNotPublished)
    else if t.cvs[cv].deletedAt.Some? then Refuse(t, ReferencedCvDeleted)
    else if t.cvs[cv].owner != user then Refuse(t, CvOwnership)
    else if HasApplied(t.applications, user, job) || id in t.applications then Refuse(t, AlreadyApplied)
    else Reply(Enter(t, id, user, job, cv), Done)
  }

  function Enter(t: Tables, id: ApplicationId, user: UserId, job: JobId, cv: CvId): Tables {
    t.(applications := t.applications[id := Application(user, job, Some(cv), APPLIED)])
  }

  /** The status and its history row, in one transaction. */
  function Move(t: Tables, a: ApplicationId, to: ApplicationStatus, changedBy: UserId): Tables
    requires a in t.applications
  {
    t.(applications := t.applications[a := t.applications[a].(status := to)],
       history := t.history + [HistoryRow(a, t.applications[a].status, to, changedBy)])
  }

  function UpdateStatus(t: Tables, recruiter: UserId, a: ApplicationId, to: ApplicationStatus): Reply {
    if a !in t.applications then Refuse(t, ApplicationNotFound)
    else if t.applications[a].job !in t.jobs then Refuse(t, JobNotFound)
    else if t.jobs[t.applications[a].job].postedBy != recruiter then Refuse(t, AccessDenied)
    else if !CanTransition(t.applications[a].status, to) then Refuse(t, InvalidTransition)
    else Reply(Move(t, a, to, recruiter), Done)
  }

  function Withdraw(t: Tables, user: UserId, a: ApplicationId): Reply {
    if a !in t.applications then Refuse(t, ApplicationNotFound)
    else if t.applications[a].user != user then Refuse(t, AccessDenied)
    else if IsTerminal(t.applications[a].status) then Refuse(t, InvalidTransition)
    else Reply(Move(t, a, WITHDRAWN, user), Done)
  }

  // ---- Interviews ----

  predicate IsActive(i: Interview) {
    i.status == SCHEDULED || i.status == RESCHEDULED
  }

  /** JavaScript truthiness of a nullable string. */
  predicate Present(s: Option<string>) {
    s.Some? && s.value != ""
  }

  predicate HasPlace(i: Interview) {
    Present(i.location) || Present(i.meetingLink)
  }

  predicate HasActiveInterview(t: Tables, a: ApplicationId) {
    exists i :: i in t.interviews && t.interviews[i].application == a && IsActive(t.interviews[i])
  }

  /** The checks every interview handler makes about the application and its job. */
  function Interviewable(t: Tables, recruiter: UserId, a: ApplicationId): Outcome {
    if a !in t.applications then Refused(ApplicationNotFound)
    else if t.applications[a].status in NOT_INTERVIEWABLE then Refused(NotInterviewable)
    else if t.applications[a].job !in t.jobs then Refused(JobNotFound)
    else if t.jobs[t.applications[a].job].postedBy != recruiter then Refused(AccessDenied)
    else Done
  }

  function Schedule(t: Tables, now: nat, id: InterviewId, recruiter: UserId, a: ApplicationId, at: nat,
                    location: Option<string>, link: Option<string>): Reply
  {
    var guard := Interviewable(t, recruiter, a);
    var interview := Interview(a, at, location, link, SCHEDULED);
    if guard.Refused? then Reply(t, guard)
    else if at <= now then Refuse(t, TimeInPast)
    else if HasActiveInterview(t, a) then Refuse(t, AlreadyScheduled)
    else if !HasPlace(interview) then Refuse(t, PlaceRequired)
    else if id in t.interviews then Refuse(t, DuplicateKey)
    else Reply(t.(interviews := t.interviews[id := interview]), Done)
  }

  /** What can be done to one interview. A reschedule leaves what it does not mention as it is; a place given
      as null is cleared. */
  datatype Change =
    | Reschedule(at: Option<nat>, location: Option<Option<string>>, meetingLink: Option<Option<string>>)
    | Cancel | Complete | MarkNoShow

  function Kept<T>(given: Option<T>, current: T): T {
    if given.Some? then given.value else current
  }

  /** The interview as `reschedule` leaves it in memory once its first three guards are passed. */
  function Rescheduled(i: Interview, c: Change): Interview
    requires c.Reschedule?
  {
    i.(scheduledAt := Kept(c.at, i.scheduledAt), location := Kept(c.location, i.location),
       meetingLink := Kept(c.meetingLink, i.meetingLink))
  }

  function ChangeOutcome(i: Interview, now: nat, c: Change): Outcome {
    match c
    case Reschedule(at, _, _) =>
      if i.status == CANCELLED then Refused(CannotRescheduleCancelled)
      else if !IsActive(i) then Refused(NotActionable)
      else if Kept(at, i.scheduledAt) <= now then Refused(TimeInPast)
      else if !HasPlace(Rescheduled(i, c)) then Refused(PlaceRequired)
      else Done
    case Cancel =>
      if i.status == CANCELLED then Refused(AlreadyCancelled)
      else if !IsActive(i) then Refused(NotActionable)
      else Done
    case _ => if !IsActive(i) then Refused(NotActionable) else Done
  }

  function Changed(i: Interview, c: Change): Interview {
    match c
    case Reschedule(_, _, _) => Rescheduled(i, c).(status := RESCHEDULED)
    case Cancel => i.(status := CANCELLED)
    case Complete => i.(status := COMPLETED)
    case MarkNoShow => i.(status := NO_SHOW)
  }

  function ChangeInterview(t: Tables, now: nat, recruiter: UserId, id: InterviewId, c: Change): Reply {
    if id !in t.interviews then Refuse(t, InterviewNotFound)
    else
      var guard := Interviewable(t, recruiter, t.interviews[id].application);
      var outcome := ChangeOutcome(t.interviews[id], now, c);
      if guard.Refused? then Reply(t, guard)
      else if outcome.Refused? then Reply(t, outcome)
      else Reply(t.(interviews := t.interviews[id := Changed(t.interviews[id], c)]), Done)
  }

  // ---- Conversations ----

  predicate HasConversation(t: Tables, a: ApplicationId) {
    exists c :: c in t.conversations && t.conversations[c].application == a
  }

  /** The checks before a conversation is looked up. */
  function MayTalk(t: Tables, recruiter: UserId, a: ApplicationId): Outcome {
    if a !in t.applications then Refused(ApplicationNotFound)
    else if t.applications[a].status != ELIGIBLE_FOR_CHAT then Refused(NotHired)
    else if t.applications[a].job !in t.jobs then Refused(JobNotFound)
    else if t.jobs[t.applications[a].job].postedBy != recruiter then Refused(AccessDenied)
    else Done
  }

  /** Find or create: a conversation that is already there is returned as it is. */
  function StartConversation(t: Tables, id: ConversationId, recruiter: UserId, a: ApplicationId): Reply {
    if MayTalk(t, recruiter, a).Refused? then Reply(t, MayTalk(t, recruiter, a))
    else if HasConversation(t, a) then Reply(t, Done)
    else if id in t.conversations then Refuse(t, DuplicateKey)
    else
      var app := t.applications[a];
      Reply(t.(conversations := t.conversations[id := Conversation(app.job, a, app.user, recruiter)]), Done)
  }

  // ---- Runs ----

  /** One serial command. JobsChange stands for everything the job module and the clock can do to what
      job lookups answer. */
  datatype Command =
    | CreateCvCommand(cvId: CvId, user: UserId)
    | PublishCvCommand(user: UserId, cvId: CvId)
    | DeleteCvCommand(now: nat, user: UserId, cvId: CvId)
    | PurgeDeletedCvsCommand(now: nat, failing: set<CvId>)
    | JobsChange(jobs: map<JobId, Job>)
    | ApplyJobCommand(newApplication: ApplicationId, user: UserId, job: JobId, cvId: CvId)
    | UpdateStatusCommand(recruiter: UserId, application: ApplicationId, status: ApplicationStatus)
    | WithdrawCommand(user: UserId, application: ApplicationId)
    | ScheduleCommand(now: nat, newInterview: InterviewId, recruiter: UserId, application: ApplicationId, at: nat,
                      location: Option<string>, meetingLink: Option<string>)
    | ChangeInterviewCommand(now: nat, recruiter: UserId, interview: InterviewId, change: Change)
    | CreateConversationCommand(newConversation: ConversationId, recruiter: UserId, application: ApplicationId)

  function Execute(t: Tables, c: Command): Reply {
    match c
    case CreateCvCommand(id, user) => CreateCv(t, id, user)
    case PublishCvCommand(user, id) => PublishCv(t, user, id)
    case DeleteCvCommand(now, user, id) => DeleteCv(t, now, user, id)
    case PurgeDeletedCvsCommand(now, failing) => PurgeDeletedCvs(t, now, failing)
    case JobsChange(jobs) => Reply(t.(jobs := jobs), Done)
    case ApplyJobCommand(id, user, job, cv) => Apply(t, id, user, job, cv)
    case UpdateStatusCommand(recruiter, a, to) => UpdateStatus(t, recruiter, a, to)
    case WithdrawCommand(user, a) => Withdraw(t, user, a)
    case ScheduleCommand(now, id, recruiter, a, at, location, link) =>
      Schedule(t, now, id, recruiter, a, at, location, link)
    case ChangeInterviewCommand(now, recruiter, i, change) => ChangeInterview(t, now, recruiter, i, change)
    case CreateConversationCommand(id, recruiter, a) => StartConversation(t, id, recruiter, a)
  }

  function AfterAll(t: Tables, run: seq<Command>): Tables {
    if run == [] then t else Execute(AfterAll(t, run[..|run| - 1]), run[|run| - 1]).tables
  }

  // ---- What every reachable state satisfies ----

  type CvTable = map<CvId, Cv>
  type ApplicationTable = map<ApplicationId, Application>
  type InterviewTable = map<InterviewId, Interview>
  type ConversationTable = map<ConversationId, Conversation>

  /** The CV of an application that is still open exists, is not deleted, is published and is the
      applicant's own. */
  ghost predicate CvIsSafe(cvs: CvTable, a: Application) {
    !IsTerminal(a.status) ==>
      && a.cv.Some?
      && a.cv.value in cvs
      && cvs[a.cv.value].deletedAt.None?
      && cvs[a.cv.value].published
      && cvs[a.cv.value].owner == a.user
  }

  ghost predicate CvsAreSafe(cvs: CvTable, apps: ApplicationTable) {
    forall a :: a in apps ==> CvIsSafe(cvs, apps[a])
  }

  ghost predicate OneApplicationPerJob(apps: ApplicationTable) {
    forall a, b :: a in apps && b in apps && apps[a].user == apps[b].user && apps[a].job == apps[b].job ==> a == b
  }

  /** The log of every application explains how it came to its status. */
  ghost predicate HistoryIsFaithful(history: seq<HistoryRow>, apps: ApplicationTable) {
    && (forall i :: 0 <= i < |history| ==> history[i].application in apps)
    && (forall a :: a in apps ==> Explains(Log(history, a), apps[a].user, apps[a].status))
  }

  ghost predicate OneActiveInterview(interviews: InterviewTable) {
    forall i, j :: i in interviews && j in interviews && Compete(interviews[i], interviews[j]) ==> i == j
  }

  predicate Compete(i: Interview, j: Interview) {
    IsActive(i) && IsActive(j) && i.application == j.application
  }

  ghost predicate InterviewsAreSound(interviews: InterviewTable, apps: ApplicationTable) {
    && (forall i :: i in interviews ==> interviews[i].application in apps && HasPlace(interviews[i]))
    && OneActiveInterview(interviews)
  }

  ghost predicate ConversationIsSound(c: Conversation, apps: ApplicationTable) {
    && c.application in apps
    && apps[c.application].status == HIRED
    && apps[c.application].user == c.candidate
    && apps[c.application].job == c.job
  }

  ghost predicate ConversationsAreSound(conversations: ConversationTable, apps: ApplicationTable) {
    && (forall c :: c in conversations ==> ConversationIsSound(conversations[c], apps))
    && (forall c, d :: c in conversations && d in conversations
                   && conversations[c].application == conversations[d].application
                   ==> c == d)
  }

  ghost predicate Sound(t: Tables) {
    && CvsAreSafe(t.cvs, t.applications)
    && OneApplicationPerJob(t.applications)
    && HistoryIsFaithful(t.history, t.applications)
    && InterviewsAreSound(t.interviews, t.applications)
    && ConversationsAreSound(t.conversations, t.applications)
  }

  /** Writing a CV row is safe when it keeps the owner, never takes publication back, and only deletes a
      CV no open application holds. */
  lemma CvWriteIsSafe(cvs: CvTable, apps: ApplicationTable, id: CvId, cv: Cv)
    requires CvsAreSafe(cvs, apps)
    requires id in cvs ==> cv.owner == cvs[id].owner && (cvs[id].published ==> cv.published)
    requires cv.deletedAt.Some? ==> !HasActiveReference(apps, id)
    ensures CvsAreSafe(cvs[id := cv], apps)
  {
    forall a | a in apps ensures CvIsSafe(cvs[id := cv], apps[a]) {
      assert CvIsSafe(cvs, apps[a]);
      TerminalSetsAgree(apps[a].status);
      assert cv.deletedAt.Some? ==> !HoldsCv(apps[a], id);
    }
  }

  lemma CvWriteKeepsSound(t: Tables, id: CvId, cv: Cv)
    requires Sound(t)
    requires id in t.cvs ==> cv.owner == t.cvs[id].owner && (t.cvs[id].published ==> cv.published)
    requires cv.deletedAt.Some? ==> !HasActiveReference(t.applications, id)
    ensures Sound(t.(cvs := t.cvs[id := cv]))
  {
    hide CvsAreSafe, OneApplicationPerJob, HistoryIsFaithful, InterviewsAreSound, ConversationsAreSound;
    hide HasActiveReference;
    CvWriteIsSafe(t.cvs, t.applications, id, cv);
  }

  lemma CreateCvKeepsSound(t: Tables, id: CvId, user: UserId)
    requires Sound(t)
    ensures Sound(CreateCv(t, id, user).tables)
  {
    hide Sound;
    if CreateCv(t, id, user).outcome.Done? {
      CvWriteKeepsSound(t, id, Cv(user, true, None));
    }
  }

  lemma PublishCvKeepsSound(t: Tables, user: UserId, id: CvId)
    requires Sound(t)
    ensures Sound(PublishCv(t, user, id).tables)
  {
    hide Sound;
    if PublishCv(t, user, id).outcome.Done? {
      CvWriteKeepsSound(t, id, t.cvs[id].(published := true));
    }
  }

  lemma DeleteCvKeepsSound(t: Tables, now: nat, user: UserId, id: CvId)
    requires Sound(t)
    ensures Sound(DeleteCv(t, now, user, id).tables)
  {
    hide Sound, HasActiveReference;
    if DeleteCv(t, now, user, id).outcome.Done? {
      CvWriteKeepsSound(t, id, t.cvs[id].(deletedAt := Some(now)));
    }
  }

  /** Every row of `apps` is still there, for the same user and job, and HIRED if it was. */
  ghost predicate Stand(apps: ApplicationTable, apps': ApplicationTable) {
    forall a :: a in apps ==> a in apps' && StillFor(apps[a], apps'[a])
  }

  predicate StillFor(a: Application, b: Application) {
    b.user == a.user && b.job == a.job && (a.status == HIRED ==> b.status == HIRED)
  }

  lemma InterviewsAndConversationsStand(t: Tables, apps: ApplicationTable)
    requires InterviewsAreSound(t.interviews, t.applications) && Stand(t.applications, apps)
    requires ConversationsAreSound(t.conversations, t.applications)
    ensures InterviewsAreSound(t.interviews, apps)
    ensures ConversationsAreSound(t.conversations, apps)
  {
    assert forall c :: c in t.conversations ==> ConversationIsSound(t.conversations[c], t.applications);
  }

  /** Rows that differ at most in their CV pointer. */
  ghost predicate SameButCv(apps: ApplicationTable, apps': ApplicationTable) {
    && apps'.Keys == apps.Keys
    && forall a :: a in apps ==> apps'[a] == apps[a].(cv := apps'[a].cv)
  }

  lemma CvPointerIsNotRead(history: seq<HistoryRow>, apps: ApplicationTable, apps': ApplicationTable)
    requires OneApplicationPerJob(apps) && HistoryIsFaithful(history, apps) && SameButCv(apps, apps')
    ensures OneApplicationPerJob(apps') && HistoryIsFaithful(history, apps') && Stand(apps, apps')
  {
    hide Explains, Log;
    assert forall a :: a in apps' ==> a in apps;
  }

  lemma PurgeKeepsSound(t: Tables, now: nat, failing: set<CvId>)
    requires Sound(t)
    ensures Sound(PurgeDeletedCvs(t, now, failing).tables)
  {
    hide HistoryIsFaithful, InterviewsAreSound, ConversationsAreSound, OneApplicationPerJob;
    var gone := Purgeable(t, now) - failing;
    var t' := DropCvs(t, gone);
    assert SameButCv(t.applications, t'.applications);
    CvPointerIsNotRead(t.history, t.applications, t'.applications);
    InterviewsAndConversationsStand(t, t'.applications);
    forall a | a in t'.applications ensures CvIsSafe(t'.cvs, t'.applications[a]) {
      assert CvIsSafe(t.cvs, t.applications[a]);
    }
  }

  lemma NewApplicationIsExplained(history: seq<HistoryRow>, apps: ApplicationTable, id: ApplicationId, a: Application)
    requires HistoryIsFaithful(history, apps) && id !in apps && a.status == APPLIED
    ensures HistoryIsFaithful(history, apps[id := a])
  {
    NoRowsNoLog(history, id);
  }

  lemma NewApplicationIsSafe(cvs: CvTable, apps: ApplicationTable, id: ApplicationId, a: Application)
    requires CvsAreSafe(cvs, apps) && CvIsSafe(cvs, a)
    ensures CvsAreSafe(cvs, apps[id := a])
  {
    assert forall b :: b in apps ==> CvIsSafe(cvs, apps[b]);
  }

  lemma ApplyKeepsSound(t: Tables, id: ApplicationId, user: UserId, job: JobId, cv: CvId)
    requires Sound(t)
    ensures Sound(Apply(t, id, user, job, cv).tables)
  {
    hide CvsAreSafe, HistoryIsFaithful, InterviewsAreSound, ConversationsAreSound;
    var t' := Apply(t, id, user, job, cv).tables;
    if t' != t {
      NewApplicationIsSafe(t.cvs, t.applications, id, t'.applications[id]);
      NewApplicationIsExplained(t.history, t.applications, id, t'.applications[id]);
      InterviewsAndConversationsStand(t, t'.applications);
    }
  }

  lemma MoveIsExplained(history: seq<HistoryRow>, apps: ApplicationTable, a: ApplicationId, row: HistoryRow)
    requires HistoryIsFaithful(history, apps) && a in apps
    requires row.application == a && row.from == apps[a].status && IsLegalMove(row, apps[a].user)
    ensures HistoryIsFaithful(history + [row], apps[a := apps[a].(status := row.to)])
  {
    hide Log, Explains, IsLegalMove;
    ExplanationGrows(Log(history, a), row, apps[a].user);
    var apps' := apps[a := apps[a].(status := row.to)];
    forall b | b in apps' ensures Explains(Log(history + [row], b), apps'[b].user, apps'[b].status) {
      LogGrows(history, row, b);
      assert Log(history, b) + [] == Log(history, b);
    }
  }

  lemma MoveIsSafe(cvs: CvTable, apps: ApplicationTable, a: ApplicationId, to: ApplicationStatus)
    requires CvsAreSafe(cvs, apps) && a in apps && !IsTerminal(apps[a].status)
    ensures CvsAreSafe(cvs, apps[a := apps[a].(status := to)])
  {
    assert CvIsSafe(cvs, apps[a]);
    NewApplicationIsSafe(cvs, apps, a, apps[a].(status := to));
  }

  lemma MoveStands(apps: ApplicationTable, a: ApplicationId, to: ApplicationStatus)
    requires OneApplicationPerJob(apps) && a in apps && !IsTerminal(apps[a].status)
    ensures Stand(apps, apps[a := apps[a].(status := to)])
    ensures OneApplicationPerJob(apps[a := apps[a].(status := to)])
  {}

  lemma MoveKeepsSound(t: Tables, a: ApplicationId, to: ApplicationStatus, changedBy: UserId)
    requires Sound(t) && a in t.applications
    requires IsLegalMove(HistoryRow(a, t.applications[a].status, to, changedBy), t.applications[a].user)
    ensures Sound(Move(t, a, to, changedBy))
  {
    hide CvsAreSafe, OneApplicationPerJob, HistoryIsFaithful, InterviewsAreSound, ConversationsAreSound, Stand;
    MoveIsExplained(t.history, t.applications, a, HistoryRow(a, t.applications[a].status, to, changedBy));
    MoveIsSafe(t.cvs, t.applications, a, to);
    MoveStands(t.applications, a, to);
    InterviewsAndConversationsStand(t, Move(t, a, to, changedBy).applications);
  }

  lemma ScheduleKeepsSound(t: Tables, now: nat, id: InterviewId, recruiter: UserId, a: ApplicationId, at: nat,
                           location: Option<string>, link: Option<string>)
    requires Sound(t)
    ensures Sound(Schedule(t, now, id, recruiter, a, at, location, link).tables)
  {
    hide CvsAreSafe, OneApplicationPerJob, HistoryIsFaithful, ConversationsAreSound;
  }

  lemma InterviewWriteIsSound(interviews: InterviewTable, apps: ApplicationTable, id: InterviewId, i: Interview)
    requires InterviewsAreSound(interviews, apps) && id in interviews
    requires i.application == interviews[id].application && IsActive(interviews[id])
    requires HasPlace(interviews[id]) ==> HasPlace(i)
    ensures InterviewsAreSound(interviews[id := i], apps)
  {
    assert forall j :: j in interviews ==> Compete(interviews[id], interviews[j]) || !Compete(i, interviews[j]);
  }

  lemma ChangeKeepsSound(t: Tables, now: nat, recruiter: UserId, id: InterviewId, c: Change)
    requires Sound(t)
    ensures Sound(ChangeInterview(t, now, recruiter, id, c).tables)
  {
    hide CvsAreSafe, OneApplicationPerJob, HistoryIsFaithful, ConversationsAreSound, InterviewsAreSound;
    if ChangeInterview(t, now, recruiter, id, c).outcome.Done? {
      InterviewWriteIsSound(t.interviews, t.applications, id, Changed(t.interviews[id], c));
    }
  }

  lemma StartConversationKeepsSound(t: Tables, id: ConversationId, recruiter: UserId, a: ApplicationId)
    requires Sound(t)
    ensures Sound(StartConversation(t, id, recruiter, a).tables)
  {
    hide CvsAreSafe, OneApplicationPerJob, HistoryIsFaithful, InterviewsAreSound;
    assert forall d :: d in t.conversations ==> ConversationIsSound(t.conversations[d], t.applications);
  }

  lemma UpdateStatusKeepsSound(t: Tables, recruiter: UserId, a: ApplicationId, to: ApplicationStatus)
    requires Sound(t)
    ensures Sound(UpdateStatus(t, recruiter, a, to).tables)
  {
    hide Sound;
    if UpdateStatus(t, recruiter, a, to).outcome.Done? {
      MoveKeepsSound(t, a, to, recruiter);
    }
  }

  lemma WithdrawKeepsSound(t: Tables, user: UserId, a: ApplicationId)
    requires Sound(t)
    ensures Sound(Withdraw(t, user, a).tables)
  {
    hide Sound;
    if Withdraw(t, user, a).outcome.Done? {
      MoveKeepsSound(t, a, WITHDRAWN, user);
    }
  }

  lemma JobsChangeKeepsSound(t: Tables, jobs: map<JobId, Job>)
    requires Sound(t)
    ensures Sound(t.(jobs := jobs))
  {
    hide CvsAreSafe, OneApplicationPerJob, HistoryIsFaithful, InterviewsAreSound, ConversationsAreSound;
  }

  lemma EveryCommandKeepsSound(t: Tables, c: Command)
    requires Sound(t)
    ensures Sound(Execute(t, c).tables)
  {
    hide Sound;
    match c
    case CreateCvCommand(id, user) => CreateCvKeepsSound(t, id, user);
    case PublishCvCommand(user, id) => PublishCvKeepsSound(t, user, id);
    case DeleteCvCommand(now, user, id) => DeleteCvKeepsSound(t, now, user, id);
    case PurgeDeletedCvsCommand(now, failing) => PurgeKeepsSound(t, now, failing);
    case JobsChange(jobs) => JobsChangeKeepsSound(t, jobs);
    case ApplyJobCommand(id, user, job, cv) => ApplyKeepsSound(t, id, user, job, cv);
    case UpdateStatusCommand(recruiter, a, to) => UpdateStatusKeepsSound(t, recruiter, a, to);
    case WithdrawCommand(user, a) => WithdrawKeepsSound(t, user, a);
    case ScheduleCommand(now, id, recruiter, a, at, location, link) =>
      ScheduleKeepsSound(t, now, id, recruiter, a, at, location, link);
    case ChangeInterviewCommand(now, recruiter, i, change) => ChangeKeepsSound(t, now, recruiter, i, change);
    case CreateConversationCommand(id, recruiter, a) => StartConversationKeepsSound(t, id, recruiter, a);
  }

  /** Every state any serial run reaches from the empty tables is sound. */
  lemma {:induction false} EveryReachableStateIsSound(run: seq<Command>)
    ensures Sound(AfterAll(NO_ROWS, run))
    decreases |run|
  {
    if run != [] {
      EveryReachableStateIsSound(run[..|run| - 1]);
      EveryCommandKeepsSound(AfterAll(NO_ROWS, run[..|run| - 1]), run[|run| - 1]);
    }
  }

  // ---- What is refused, and for which reason ----

  /** Every reason for a refusal, in the one order all commands check them in. */
  function Precedence(e: Error): nat {
    match e
    case InterviewNotFound => 0
    case ApplicationNotFound => 1
    case NotInterviewable => 2
    case NotHired => 3
    case JobNotFound => 4
    case CvNotFound => 5
    case JobNotAccepting => 6
    case JobExpired => 7
    case JobRemoved => 8
    case CvNotPublished => 9
    case ReferencedCvDeleted => 10
    case CvOwnership => 11
    case CvAlreadyPublished => 12
    case CvReferencedByActiveApplication => 13
    case AlreadyApplied => 14
    case AccessDenied => 15
    case InvalidTransition => 16
    case CannotRescheduleCancelled => 17
    case AlreadyCancelled => 18
    case NotActionable => 19
    case TimeInPast => 20
    case AlreadyScheduled => 21
    case PlaceRequired => 22
    case DuplicateKey => 23
  }

  ghost predicate CvReason(t: Tables, user: UserId, id: CvId, e: Error) {
    match e
    case CvNotFound => id !in t.cvs || t.cvs[id].deletedAt != None
    case CvOwnership => id in t.cvs && t.cvs[id].owner != user
    case _ => false
  }

  /** What keeps a recruiter from working on an application, whatever the work. */
  ghost predicate RecruiterReason(t: Tables, recruiter: UserId, a: ApplicationId, e: Error) {
    match e
    case ApplicationNotFound => a !in t.applications
    case JobNotFound => a in t.applications && t.applications[a].job !in t.jobs
    case AccessDenied =>
      && a in t.applications && t.applications[a].job in t.jobs
      && t.jobs[t.applications[a].job].postedBy != recruiter
    case _ => false
  }

  ghost predicate InterviewReason(t: Tables, recruiter: UserId, a: ApplicationId, e: Error) {
    if e == NotInterviewable then a in t.applications && t.applications[a].status in {HIRED, REJECTED, WITHDRAWN}
    else RecruiterReason(t, recruiter, a, e)
  }

  ghost predicate DeleteReason(t: Tables, user: UserId, id: CvId, e: Error) {
    if e == CvReferencedByActiveApplication then
      exists a :: a in t.applications && t.applications[a].cv == Some(id)
                  && t.applications[a].status !in {HIRED, REJECTED, WITHDRAWN}
    else CvReason(t, user, id, e)
  }

  ghost predicate ApplyReason(t: Tables, id: ApplicationId, user: UserId, job: JobId, cv: CvId, e: Error) {
    match e
    case JobNotFound => job !in t.jobs
    case JobNotAccepting => job in t.jobs && !t.jobs[job].isOpen
    case JobExpired => job in t.jobs && t.jobs[job].isExpired
    case JobRemoved => job in t.jobs && t.jobs[job].isDeleted
    case CvNotPublished => cv in t.cvs && !t.cvs[cv].published
    case AlreadyApplied =>
      id in t.applications
      || exists a :: a in t.applications && t.applications[a].user == user && t.applications[a].job == job
    case _ => CvReason(t, user, cv, e)
  }

  /** One rung up the ladder, or out of it. */
  predicate NextStep(from: ApplicationStatus, to: ApplicationStatus) {
    && from !in {HIRED, REJECTED, WITHDRAWN}
    && (to == REJECTED || (to !in {REJECTED, WITHDRAWN} && Rank(to) == Rank(from) + 1))
  }

  ghost predicate MoveReason(t: Tables, recruiter: UserId, a: ApplicationId, to: ApplicationStatus, e: Error) {
    if e == InvalidTransition then a in t.applications && !NextStep(t.applications[a].status, to)
    else RecruiterReason(t, recruiter, a, e)
  }

  ghost predicate WithdrawReason(t: Tables, user: UserId, a: ApplicationId, e: Error) {
    match e
    case ApplicationNotFound => a !in t.applications
    case AccessDenied => a in t.applications && t.applications[a].user != user
    case InvalidTransition => a in t.applications && t.applications[a].status in {HIRED, REJECTED, WITHDRAWN}
    case _ => false
  }

  /** Neither a location nor a link: absent and empty count alike. */
  predicate Nowhere(location: Option<string>, link: Option<string>) {
    (location.None? || location.value == "") && (link.None? || link.value == "")
  }

  ghost predicate ScheduleReason(t: Tables, c: Command, e: Error)
    requires c.ScheduleCommand?
  {
    match e
    case TimeInPast => c.at <= c.now
    case AlreadyScheduled =>
      exists i :: i in t.interviews && t.interviews[i].application == c.application
                  && t.interviews[i].status in {SCHEDULED, RESCHEDULED}
    case PlaceRequired => Nowhere(c.location, c.meetingLink)
    case DuplicateKey => c.newInterview in t.interviews
    case _ => InterviewReason(t, c.recruiter, c.application, e)
  }

  ghost predicate ChangeReason(t: Tables, now: nat, recruiter: UserId, id: InterviewId, c: Change, e: Error) {
    if id !in t.interviews then e == InterviewNotFound
    else
      var i := t.interviews[id];
      match e
      case CannotRescheduleCancelled => c.Reschedule? && i.status == CANCELLED
      case AlreadyCancelled => c.Cancel? && i.status == CANCELLED
      case NotActionable => i.status !in {SCHEDULED, RESCHEDULED}
      case TimeInPast => c.Reschedule? && (if c.at.Some? then c.at.value else i.scheduledAt) <= now
      case PlaceRequired =>
        && c.Reschedule?
        && Nowhere(if c.location.Some? then c.location.value else i.location,
                   if c.meetingLink.Some? then c.meetingLink.value else i.meetingLink)
      case _ => InterviewReason(t, recruiter, i.application, e)
  }

  ghost predicate TalkReason(t: Tables, id: ConversationId, recruiter: UserId, a: ApplicationId, e: Error) {
    match e
    case NotHired => a in t.applications && t.applications[a].status != HIRED
    case DuplicateKey =>
      id in t.conversations && forall d :: d in t.conversations ==> t.conversations[d].application != a
    case _ => RecruiterReason(t, recruiter, a, e)
  }

  /** The condition each refusal of a command reports, in terms of the rows alone. */
  ghost predicate Applies(t: Tables, c: Command, e: Error) {
    match c
    case CreateCvCommand(id, _) => e == DuplicateKey && id in t.cvs
    case PublishCvCommand(user, id) =>
      if e == CvAlreadyPublished then id in t.cvs && t.cvs[id].published else CvReason(t, user, id, e)
    case DeleteCvCommand(_, user, id) => DeleteReason(t, user, id, e)
    case ApplyJobCommand(id, user, job, cv) => ApplyReason(t, id, user, job, cv, e)
    case UpdateStatusCommand(recruiter, a, to) => MoveReason(t, recruiter, a, to, e)
    case WithdrawCommand(user, a) => WithdrawReason(t, user, a, e)
    case ScheduleCommand(_, _, _, _, _, _, _) => ScheduleReason(t, c, e)
    case ChangeInterviewCommand(now, recruiter, id, change) => ChangeReason(t, now, recruiter, id, change, e)
    case CreateConversationCommand(id, recruiter, a) => TalkReason(t, id, recruiter, a, e)
    case _ => false
  }

  /** The answer a command is owed: Done if no reason to refuse it applies, the first one that does otherwise. */
  ghost predicate IsOwed(t: Tables, c: Command, o: Outcome) {
    match o
    case Done => forall e :: !Applies(t, c, e)
    case Refused(first) => Applies(t, c, first) && forall e :: Applies(t, c, e) ==> Precedence(first) <= Precedence(e)
  }

  lemma CvCommandIsOwed(t: Tables, c: Command)
    requires c.CreateCvCommand? || c.PublishCvCommand? || c.DeleteCvCommand?
    ensures IsOwed(t, c, Execute(t, c).outcome)
  {}

  lemma ApplyIsOwed(t: Tables, c: Command)
    requires c.ApplyJobCommand?
    ensures IsOwed(t, c, Execute(t, c).outcome)
  {}

  lemma MoveIsOwed(t: Tables, c: Command)
    requires c.UpdateStatusCommand? || c.WithdrawCommand?
    ensures IsOwed(t, c, Execute(t, c).outcome)
  {
    if c.application in t.applications {
      TransitionIff(t.applications[c.application].status, if c.UpdateStatusCommand? then c.status else WITHDRAWN);
    }
    hide CanTransition, IsTerminal, Rank;
  }

  lemma InterviewableIsOwed(t: Tables, recruiter: UserId, a: ApplicationId)
    ensures var o := Interviewable(t, recruiter, a);
      && (o.Done? ==> forall e :: !InterviewReason(t, recruiter, a, e))
      && (o.Refused? ==> InterviewReason(t, recruiter, a, o.error))
      && (o.Refused? ==> forall e :: InterviewReason(t, recruiter, a, e) ==> Precedence(o.error) <= Precedence(e))
    ensures forall e :: InterviewReason(t, recruiter, a, e) ==> 1 <= Precedence(e) <= 15
  {}

  lemma MayTalkIsOwed(t: Tables, id: ConversationId, recruiter: UserId, a: ApplicationId)
    ensures var o := MayTalk(t, recruiter, a);
      && (o.Done? ==> forall e :: TalkReason(t, id, recruiter, a, e) ==> e == DuplicateKey)
      && (o.Refused? ==> TalkReason(t, id, recruiter, a, o.error))
      && (o.Refused? ==> forall e :: TalkReason(t, id, recruiter, a, e) ==> Precedence(o.error) <= Precedence(e))
  {}

  lemma ScheduleIsOwed(t: Tables, c: Command)
    requires c.ScheduleCommand?
    ensures IsOwed(t, c, Execute(t, c).outcome)
  {
    InterviewableIsOwed(t, c.recruiter, c.application);
    hide Interviewable, InterviewReason;
  }

  lemma ChangeIsOwed(t: Tables, c: Command)
    requires c.ChangeInterviewCommand?
    ensures IsOwed(t, c, Execute(t, c).outcome)
  {
    if c.interview in t.interviews {
      InterviewableIsOwed(t, c.recruiter, t.interviews[c.interview].application);
    }
    hide Interviewable, InterviewReason;
  }

  lemma ConversationIsOwed(t: Tables, c: Command)
    requires c.CreateConversationCommand?
    ensures IsOwed(t, c, Execute(t, c).outcome)
  {
    MayTalkIsOwed(t, c.newConversation, c.recruiter, c.application);
    hide MayTalk, RecruiterReason;
  }

  /** Every command gets the answer it is owed. */
  lemma EveryAnswerIsOwed(t: Tables, c: Command)
    ensures IsOwed(t, c, Execute(t, c).outcome)
  {
    hide IsOwed, Execute;
    match c
    case CreateCvCommand(_, _) => CvCommandIsOwed(t, c);
    case PublishCvCommand(_, _) => CvCommandIsOwed(t, c);
    case DeleteCvCommand(_, _, _) => CvCommandIsOwed(t, c);
    case PurgeDeletedCvsCommand(_, _) => JobsAreNeverRefused(t, c);
    case JobsChange(_) => JobsAreNeverRefused(t, c);
    case ApplyJobCommand(_, _, _, _) => ApplyIsOwed(t, c);
    case UpdateStatusCommand(_, _, _) => MoveIsOwed(t, c);
    case WithdrawCommand(_, _) => MoveIsOwed(t, c);
    case ScheduleCommand(_, _, _, _, _, _, _) => ScheduleIsOwed(t, c);
    case ChangeInterviewCommand(_, _, _, _) => ChangeIsOwed(t, c);
    case CreateConversationCommand(_, _, _) => ConversationIsOwed(t, c);
  }

  lemma JobsAreNeverRefused(t: Tables, c: Command)
    requires c.PurgeDeletedCvsCommand? || c.JobsChange?
    ensures IsOwed(t, c, Execute(t, c).outcome)
  {}

  // ---- What a command leaves behind in a sound state ----

  lemma UnreferencedMeansSettled(apps: ApplicationTable, id: CvId)
    requires !HasActiveReference(apps, id)
    ensures forall a :: a in apps && apps[a].cv == Some(id) ==> IsTerminal(apps[a].status)
  {
    forall a | a in apps && apps[a].cv == Some(id) ensures IsTerminal(apps[a].status) {
      TerminalSetsAgree(apps[a].status);
      assert !HoldsCv(apps[a], id);
    }
  }

  lemma NewApplicationHasNoLog(t: Tables, id: ApplicationId)
    requires Sound(t)
    ensures id !in t.applications ==> Log(t.history, id) == []
  {
    if id !in t.applications {
      NoRowsNoLog(t.history, id);
    }
  }

  /** What a query for `ids` returns, in any order. */
  ghost predicate Lists(rows: seq<CvId>, ids: set<CvId>) {
    && (forall id :: id in rows <==> id in ids)
    && forall i, j :: 0 <= i < j < |rows| ==> rows[i] != rows[j]
  }

  function ListedSoFar(rows: seq<CvId>, n: nat): set<CvId>
    requires n <= |rows|
  {
    set id | id in rows[..n]
  }

  lemma NextListed(rows: seq<CvId>, ids: set<CvId>, n: nat)
    requires Lists(rows, ids) && n < |rows|
    ensures rows[n] !in ListedSoFar(rows, n)
    ensures ListedSoFar(rows, n + 1) == ListedSoFar(rows, n) + {rows[n]}
  {
    assert rows[..n + 1] == rows[..n] + [rows[n]];
  }

  lemma AllListed(rows: seq<CvId>, ids: set<CvId>)
    requires Lists(rows, ids)
    ensures ListedSoFar(rows, |rows|) == ids
  {
    assert rows[..|rows|] == rows;
  }

  /** The CVs deleted more than thirty days ago are gone, except those that could not be deleted; the others stay as
      they were, applications lose at most the pointer to a CV that is gone, and open ones not even that. */
  ghost predicate PurgesWhatItCan(t: Tables, after: Tables, now: nat, failing: set<CvId>) {
    && (forall id :: id in after.cvs <==>
          && id in t.cvs
          && (id in failing || t.cvs[id].deletedAt.None? || now <= t.cvs[id].deletedAt.value + 2_592_000_000))
    && (forall id :: id in after.cvs ==> after.cvs[id] == t.cvs[id])
    && after.applications.Keys == t.applications.Keys
    && (forall a :: a in t.applications ==> after.applications[a] == SansLostCv(t.applications[a], t.cvs, after.cvs))
    && (forall a :: a in t.applications && !IsTerminal(t.applications[a].status)
                    ==> after.applications[a] == t.applications[a])
    && after == t.(cvs := after.cvs, applications := after.applications)
  }

  function SansLostCv(a: Application, before: CvTable, after: CvTable): Application {
    if a.cv.Some? && a.cv.value in before && a.cv.value !in after then a.(cv := None) else a
  }

  lemma PurgeSparesOpenApplications(t: Tables, now: nat, failing: set<CvId>)
    requires Sound(t)
    ensures PurgesWhatItCan(t, PurgeDeletedCvs(t, now, failing).tables, now, failing)
  {
    hide OneApplicationPerJob, HistoryIsFaithful, InterviewsAreSound, ConversationsAreSound;
    forall a | a in t.applications && !IsTerminal(t.applications[a].status)
      ensures PurgeDeletedCvs(t, now, failing).tables.applications[a] == t.applications[a]
    {
      assert CvIsSafe(t.cvs, t.applications[a]);
    }
  }

  /** The job's poster may move the application there: one rung up the ladder, or out of it. */
  ghost predicate MayMove(t: Tables, recruiter: UserId, a: ApplicationId, to: ApplicationStatus) {
    && a in t.applications && t.applications[a].job in t.jobs
    && t.jobs[t.applications[a].job].postedBy == recruiter
    && NextStep(t.applications[a].status, to)
  }

  lemma MovesForward(t: Tables, recruiter: UserId, a: ApplicationId, to: ApplicationStatus)
    ensures UpdateStatus(t, recruiter, a, to).outcome.Done? <==> MayMove(t, recruiter, a, to)
    ensures MayMove(t, recruiter, a, to) ==>
      var tables := UpdateStatus(t, recruiter, a, to).tables;
      && tables == t.(applications := t.applications[a := t.applications[a].(status := to)],
                      history := t.history + [HistoryRow(a, t.applications[a].status, to, recruiter)])
      && Log(tables.history, a) == Log(t.history, a) + [HistoryRow(a, t.applications[a].status, to, recruiter)]
  {
    if a in t.applications {
      TransitionIff(t.applications[a].status, to);
      LogGrows(t.history, HistoryRow(a, t.applications[a].status, to, recruiter), a);
    }
    hide Log, CanTransition, IsTerminal, Rank;
  }

  lemma WithdrawsOpen(t: Tables, user: UserId, a: ApplicationId)
    ensures Withdraw(t, user, a).outcome.Done?
      <==> && a in t.applications && t.applications[a].user == user
           && t.applications[a].status !in {HIRED, REJECTED, WITHDRAWN}
    ensures Withdraw(t, user, a).outcome.Done? ==>
      var tables := Withdraw(t, user, a).tables;
      && tables == t.(applications := t.applications[a := t.applications[a].(status := WITHDRAWN)],
                      history := t.history + [HistoryRow(a, t.applications[a].status, WITHDRAWN, user)])
      && Log(tables.history, a) == Log(t.history, a) + [HistoryRow(a, t.applications[a].status, WITHDRAWN, user)]
  {
    if a in t.applications {
      TransitionIff(t.applications[a].status, WITHDRAWN);
      LogGrows(t.history, HistoryRow(a, t.applications[a].status, WITHDRAWN, user), a);
    }
    hide Log, CanTransition, IsTerminal, Rank;
  }

  // ---- Every open application can be hired ----

  const LADDER := [APPLIED, SCREENING, SHORTLISTED, INTERVIEW, OFFER, HIRED]

  /** The recruiter's commands that take an application from one rung up to another. */
  function Climb(recruiter: UserId, a: ApplicationId, from: nat, rung: nat): (run: seq<Command>)
    requires from <= rung <= 5
    ensures |run| == rung - from
    decreases rung
  {
    if rung == from then []
    else Climb(recruiter, a, from, rung - 1) + [UpdateStatusCommand(recruiter, a, LADDER[rung])]
  }

  lemma RungByRung(rung: nat)
    requires 0 < rung <= 5
    ensures NextStep(LADDER[rung - 1], LADDER[rung])
  {}

  /** The tables with one application on another rung. */
  ghost predicate OnRung(t: Tables, u: Tables, a: ApplicationId, rung: nat)
    requires a in t.applications && rung <= 5
  {
    u == t.(applications := t.applications[a := t.applications[a].(status := LADDER[rung])], history := u.history)
  }

  lemma ClimbStep(t: Tables, u: Tables, recruiter: UserId, a: ApplicationId, rung: nat)
    requires a in t.applications && t.applications[a].job in t.jobs
    requires t.jobs[t.applications[a].job].postedBy == recruiter
    requires 0 < rung <= 5 && OnRung(t, u, a, rung - 1)
    ensures OnRung(t, Execute(u, UpdateStatusCommand(recruiter, a, LADDER[rung])).tables, a, rung)
  {
    hide NextStep, UpdateStatus;
    RungByRung(rung);
    assert u.applications[a].status == LADDER[rung - 1];
    MovesForward(u, recruiter, a, LADDER[rung]);
  }

  lemma StandsOnItsRung(t: Tables, a: ApplicationId)
    requires a in t.applications && t.applications[a].status !in {HIRED, REJECTED, WITHDRAWN}
    ensures OnRung(t, t, a, Rank(t.applications[a].status))
  {
    TransitionIff(t.applications[a].status, APPLIED);
    assert t.applications[a := t.applications[a]] == t.applications;
  }

  /** The poster of an open application's job can take it to any rung above, one command for each rung between. */
  lemma {:induction false} ClimbReaches(t: Tables, recruiter: UserId, a: ApplicationId, rung: nat)
    requires a in t.applications && t.applications[a].status !in {HIRED, REJECTED, WITHDRAWN}
    requires t.applications[a].job in t.jobs && t.jobs[t.applications[a].job].postedBy == recruiter
    requires Rank(t.applications[a].status) <= rung <= 5
    ensures OnRung(t, AfterAll(t, Climb(recruiter, a, Rank(t.applications[a].status), rung)), a, rung)
    decreases rung
  {
    hide OnRung, Execute, Rank;
    var from := Rank(t.applications[a].status);
    var run := Climb(recruiter, a, from, rung);
    if rung > from {
      ClimbReaches(t, recruiter, a, rung - 1);
      assert run[..|run| - 1] == Climb(recruiter, a, from, rung - 1);
      ClimbStep(t, AfterAll(t, run[..|run| - 1]), recruiter, a, rung);
    } else {
      StandsOnItsRung(t, a);
    }
  }

  /** Nothing keeps a good candidate out: from every state in which an application is open, whoever posted its job
      can have the applicant hired, with as many commands as there are rungs left, and then start the conversation
      with him. */
  lemma EveryOpenApplicationCanBeHired(t: Tables, recruiter: UserId, a: ApplicationId, id: ConversationId)
    requires a in t.applications && t.applications[a].status !in {HIRED, REJECTED, WITHDRAWN}
    requires t.applications[a].job in t.jobs && t.jobs[t.applications[a].job].postedBy == recruiter
    requires id !in t.conversations
    ensures var run := Climb(recruiter, a, Rank(t.applications[a].status), 5);
      && |run| == 5 - Rank(t.applications[a].status)
      && AfterAll(t, run).applications == t.applications[a := t.applications[a].(status := HIRED)]
      && StartConversation(AfterAll(t, run), id, recruiter, a).outcome.Done?
  {
    ClimbReaches(t, recruiter, a, 5);
  }

  // ---- What an interview handler leaves behind ----

  /** The one active interview of an open application, with a time ahead and a place. */
  ghost predicate IsTheActiveInterview(t: Tables, id: InterviewId, a: ApplicationId, now: nat) {
    && id in t.interviews && now < t.interviews[id].scheduledAt && HasPlace(t.interviews[id])
    && a in t.applications && !IsTerminal(t.applications[a].status)
    && forall i :: i in t.interviews && t.interviews[i].application == a && IsActive(t.interviews[i]) <==> i == id
  }

  lemma ScheduledAlone(t: Tables, now: nat, id: InterviewId, recruiter: UserId, a: ApplicationId, at: nat,
                       location: Option<string>, link: Option<string>)
    ensures var r := Schedule(t, now, id, recruiter, a, at, location, link);
      && (r.outcome.Done? ==> IsTheActiveInterview(r.tables, id, a, now))
      && r.tables == (if r.outcome.Refused? then t
                      else t.(interviews := t.interviews[id := Interview(a, at, location, link, SCHEDULED)]))
  {
    if Schedule(t, now, id, recruiter, a, at, location, link).outcome.Done? {
      TerminalSetsAgree(t.applications[a].status);
    }
  }

  /** An active interview of an open application was changed, and nothing else: a reschedule replaced what it
      mentions and left a time ahead and a place, the other three set the status they are named for. */
  ghost predicate ChangedWhileActive(t: Tables, after: Tables, now: nat, id: InterviewId, c: Change) {
    && id in t.interviews && id in after.interviews
    && after == t.(interviews := t.interviews[id := after.interviews[id]])
    && var i, i' := t.interviews[id], after.interviews[id];
       && i.status in {SCHEDULED, RESCHEDULED}
       && i.application in t.applications && t.applications[i.application].status !in {HIRED, REJECTED, WITHDRAWN}
       && match c
          case Reschedule(at, location, link) =>
            && i'.scheduledAt == (if at == None then i.scheduledAt else at.value)
            && i'.location == (if location == None then i.location else location.value)
            && i'.meetingLink == (if link == None then i.meetingLink else link.value)
            && i'.status == RESCHEDULED && i'.application == i.application
            && now < i'.scheduledAt && !Nowhere(i'.location, i'.meetingLink)
          case Cancel => i' == i.(status := CANCELLED)
          case Complete => i' == i.(status := COMPLETED)
          case MarkNoShow => i' == i.(status := NO_SHOW)
  }

  lemma ChangeOfActive(t: Tables, now: nat, recruiter: UserId, id: InterviewId, c: Change)
    ensures var r := ChangeInterview(t, now, recruiter, id, c);
      r.outcome.Done? ==> ChangedWhileActive(t, r.tables, now, id, c)
  {
    if ChangeInterview(t, now, recruiter, id, c).outcome.Done? {
      TerminalSetsAgree(t.applications[t.interviews[id].application].status);
    }
  }

  /** The application is hired and has exactly one conversation, with the applicant as its candidate. */
  ghost predicate HiredWithOneConversation(t: Tables, a: ApplicationId) {
    && a in t.applications && t.applications[a].status == HIRED
    && exists c :: c in t.conversations && IsTheConversationOf(t, c, a)
  }

  ghost predicate IsTheConversationOf(t: Tables, c: ConversationId, a: ApplicationId)
    requires c in t.conversations && a in t.applications
  {
    && t.conversations[c].application == a && t.conversations[c].candidate == t.applications[a].user
    && forall d :: d in t.conversations && t.conversations[d].application == a ==> d == c
  }

  ghost predicate Keeps(before: ConversationTable, after: ConversationTable) {
    forall c :: c in before ==> c in after && after[c] == before[c]
  }

  lemma SoundConversationIsTheOne(t: Tables, c: ConversationId, a: ApplicationId)
    requires ConversationsAreSound(t.conversations, t.applications)
    requires c in t.conversations && t.conversations[c].application == a
    ensures HiredWithOneConversation(t, a)
  {
    assert ConversationIsSound(t.conversations[c], t.applications);
    assert IsTheConversationOf(t, c, a);
  }

  /** A conversation about the application was there and nothing has changed, or there was none and the one added is
      between the applicant and the recruiter, about this application for this job. */
  ghost predicate FoundOrAdded(t: Tables, after: Tables, id: ConversationId, recruiter: UserId, a: ApplicationId) {
    if exists d :: d in t.conversations && t.conversations[d].application == a then after == t
    else
      && a in t.applications && id !in t.conversations
      && after == t.(conversations := t.conversations[id :=
           Conversation(t.applications[a].job, a, t.applications[a].user, recruiter)])
  }

  lemma FoundOrCreated(t: Tables, id: ConversationId, recruiter: UserId, a: ApplicationId)
    ensures var r := StartConversation(t, id, recruiter, a);
      && Keeps(t.conversations, r.tables.conversations)
      && (r.outcome.Done? ==> HasConversation(r.tables, a) && FoundOrAdded(t, r.tables, id, recruiter, a))
  {
    var r := StartConversation(t, id, recruiter, a);
    if !HasConversation(t, a) && r.outcome.Done? {
      assert r.tables.conversations[id].application == a;
    }
  }

  lemma ConversationIsStarted(t: Tables, id: ConversationId, recruiter: UserId, a: ApplicationId)
    requires Sound(t)
    ensures var r := StartConversation(t, id, recruiter, a);
      && Keeps(t.conversations, r.tables.conversations)
      && (r.outcome.Done? ==> HiredWithOneConversation(r.tables, a) && FoundOrAdded(t, r.tables, id, recruiter, a))
  {
    hide OneApplicationPerJob, HistoryIsFaithful, InterviewsAreSound, CvsAreSafe, ConversationsAreSound;
    hide HiredWithOneConversation, Keeps, StartConversation, FoundOrAdded;
    StartConversationKeepsSound(t, id, recruiter, a);
    FoundOrCreated(t, id, recruiter, a);
    var after := StartConversation(t, id, recruiter, a).tables;
    if HasConversation(after, a) {
      var c :| c in after.conversations && after.conversations[c].application == a;
      SoundConversationIsTheOne(after, c, a);
    }
  }

  // ---- What a run can no longer change ----

  /** An interview that belongs to application `a`, before and after. */
  ghost predicate SameInterviewsOf(a: ApplicationId, t: Tables, t': Tables) {
    forall i :: (i in t.interviews && t.interviews[i].application == a)
                || (i in t'.interviews && t'.interviews[i].application == a)
                ==> i in t.interviews && i in t'.interviews && t.interviews[i] == t'.interviews[i]
  }

  /** From `t` to `t'` no application is lost or changes hands and its log only grows; a final one keeps
      its status, its log and its interviews; an interview past its outcome keeps it; and every
      conversation stays, as it was. */
  ghost predicate ApplicationSettles(a: ApplicationId, t: Tables, t': Tables)
    requires a in t.applications
  {
    && a in t'.applications
    && t'.applications[a].user == t.applications[a].user
    && t'.applications[a].job == t.applications[a].job
    && Log(t.history, a) <= Log(t'.history, a)
    && (IsTerminal(t.applications[a].status) ==>
          && t'.applications[a].status == t.applications[a].status
          && Log(t'.history, a) == Log(t.history, a)
          && SameInterviewsOf(a, t, t'))
  }

  ghost predicate InterviewSettles(i: InterviewId, t: Tables, t': Tables)
    requires i in t.interviews
  {
    && i in t'.interviews
    && t'.interviews[i].application == t.interviews[i].application
    && (!IsActive(t.interviews[i]) ==> t'.interviews[i] == t.interviews[i])
  }

  ghost predicate Settles(t: Tables, t': Tables) {
    && (forall a :: a in t.applications ==> ApplicationSettles(a, t, t'))
    && (forall i :: i in t.interviews ==> InterviewSettles(i, t, t'))
    && (forall c :: c in t.conversations ==> c in t'.conversations && t'.conversations[c] == t.conversations[c])
  }

  lemma MoveSettles(t: Tables, a: ApplicationId, to: ApplicationStatus, changedBy: UserId)
    requires a in t.applications && !IsTerminal(t.applications[a].status)
    ensures Settles(t, Move(t, a, to, changedBy))
  {
    var t' := Move(t, a, to, changedBy);
    forall b | b in t.applications ensures ApplicationSettles(b, t, t') {
      LogGrows(t.history, HistoryRow(a, t.applications[a].status, to, changedBy), b);
    }
  }

  /** Nothing is unsettled by a write that leaves history and interviews alone, keeps every application's
      user, job and status, and keeps every conversation. */
  lemma RowsStaySettles(t: Tables, t': Tables)
    requires t'.history == t.history && t'.interviews == t.interviews
    requires ApplicationsStay(t.applications, t'.applications)
    requires forall c :: c in t.conversations ==> c in t'.conversations && t'.conversations[c] == t.conversations[c]
    ensures Settles(t, t')
  {
    hide Log;
  }

  ghost predicate ApplicationsStay(apps: ApplicationTable, apps': ApplicationTable) {
    forall a :: a in apps ==> a in apps' && apps'[a] == apps[a].(cv := apps'[a].cv)
  }

  lemma QuietCommandSettles(t: Tables, c: Command)
    requires !c.UpdateStatusCommand? && !c.WithdrawCommand? && !c.ScheduleCommand? && !c.ChangeInterviewCommand?
    ensures Settles(t, Execute(t, c).tables)
  {
    hide Settles, HasActiveReference, HasApplied, HasConversation;
    RowsStaySettles(t, Execute(t, c).tables);
  }

  /** Writing one interview settles as long as its application is open and an outcome is never undone. */
  lemma InterviewWriteSettles(t: Tables, id: InterviewId, i: Interview)
    requires i.application in t.applications && !IsTerminal(t.applications[i.application].status)
    requires id in t.interviews ==> t.interviews[id].application == i.application && IsActive(t.interviews[id])
    ensures Settles(t, t.(interviews := t.interviews[id := i]))
  {
    hide Log;
    var t' := t.(interviews := t.interviews[id := i]);
    forall a | a in t.applications ensures ApplicationSettles(a, t, t') {}
  }

  lemma InterviewCommandSettles(t: Tables, c: Command)
    requires c.ScheduleCommand? || c.ChangeInterviewCommand?
    ensures Settles(t, Execute(t, c).tables)
  {
    hide Settles;
    if Execute(t, c).outcome.Refused? {
      RowsStaySettles(t, Execute(t, c).tables);
    } else if c.ScheduleCommand? {
      TerminalSetsAgree(t.applications[c.application].status);
      InterviewWriteSettles(t, c.newInterview, Interview(c.application, c.at, c.location, c.meetingLink, SCHEDULED));
    } else {
      TerminalSetsAgree(t.applications[t.interviews[c.interview].application].status);
      InterviewWriteSettles(t, c.interview, Changed(t.interviews[c.interview], c.change));
    }
  }

  lemma MoveCommandSettles(t: Tables, c: Command)
    requires c.UpdateStatusCommand? || c.WithdrawCommand?
    ensures Settles(t, Execute(t, c).tables)
  {
    hide Settles;
    if Execute(t, c).outcome.Refused? {
      RowsStaySettles(t, t);
    } else if c.UpdateStatusCommand? {
      MoveSettles(t, c.application, c.status, c.recruiter);
    } else {
      MoveSettles(t, c.application, WITHDRAWN, c.user);
    }
  }

  lemma EveryCommandSettles(t: Tables, c: Command)
    ensures Settles(t, Execute(t, c).tables)
  {
    hide Settles, Execute;
    match c
    case UpdateStatusCommand(_, _, _) => MoveCommandSettles(t, c);
    case WithdrawCommand(_, _) => MoveCommandSettles(t, c);
    case ScheduleCommand(_, _, _, _, _, _, _) => InterviewCommandSettles(t, c);
    case ChangeInterviewCommand(_, _, _, _) => InterviewCommandSettles(t, c);
    case _ => QuietCommandSettles(t, c);
  }

  lemma SettlingComposes(t: Tables, u: Tables, v: Tables)
    requires Settles(t, u) && Settles(u, v)
    ensures Settles(t, v)
  {
    forall a | a in t.applications ensures ApplicationSettles(a, t, v) {
      assert ApplicationSettles(a, t, u) && ApplicationSettles(a, u, v);
    }
    forall i | i in t.interviews ensures InterviewSettles(i, t, v) {
      assert InterviewSettles(i, t, u) && InterviewSettles(i, u, v);
    }
  }

  /** Whatever follows, a final status is final, the interviews under it are frozen, a conversation stays
      where it is, and history is only ever appended to. */
  lemma {:induction false} EveryRunSettles(t: Tables, run: seq<Command>)
    ensures Settles(t, AfterAll(t, run))
    decreases |run|
  {
    if run != [] {
      var before := AfterAll(t, run[..|run| - 1]);
      EveryRunSettles(t, run[..|run| - 1]);
      EveryCommandSettles(before, run[|run| - 1]);
      SettlingComposes(t, before, AfterAll(t, run));
    }
  }

  /** Once a conversation is open its application is HIRED in every later state of every run. */
  lemma ConversationsStayHired(t: Tables, run: seq<Command>, c: ConversationId)
    requires Sound(t) && c in t.conversations
    ensures c in AfterAll(t, run).conversations
    ensures ConversationIsSound(t.conversations[c], AfterAll(t, run).applications)
  {
    hide AfterAll, Log, Explains;
    EveryRunSettles(t, run);
    assert ConversationIsSound(t.conversations[c], t.applications);
    assert ApplicationSettles(t.conversations[c].application, t, AfterAll(t, run));
  }

  /** The delete guard is exact: deleting a visible CV leaves every open application safe if and only if no
      open application holds it. */
  lemma DeleteGuardIsExact(t: Tables, now: nat, id: CvId)
    requires Sound(t) && CvVisible(t, id)
    ensures CvsAreSafe(t.cvs[id := t.cvs[id].(deletedAt := Some(now))], t.applications)
            <==> !HasActiveReference(t.applications, id)
  {
    var cv := t.cvs[id].(deletedAt := Some(now));
    if HasActiveReference(t.applications, id) {
      var a :| a in t.applications && HoldsCv(t.applications[a], id);
      TerminalSetsAgree(t.applications[a].status);
      assert !CvIsSafe(t.cvs[id := cv], t.applications[a]);
    } else {
      CvWriteIsSafe(t.cvs, t.applications, id, cv);
    }
  }

  /** The CVs a purge removes in any reachable state have no open application: what it nulls is only ever
      the pointer of a settled one. */
  lemma PurgeTouchesOnlySettled(t: Tables, now: nat, failing: set<CvId>, a: ApplicationId)
    requires CvsAreSafe(t.cvs, t.applications) && a in t.applications
    requires PurgeDeletedCvs(t, now, failing).tables.applications[a] != t.applications[a]
    ensures IsTerminal(t.applications[a].status)
    ensures PurgeDeletedCvs(t, now, failing).tables.applications[a] == t.applications[a].(cv := None)
  {
    assert CvIsSafe(t.cvs, t.applications[a]);
  }
}
