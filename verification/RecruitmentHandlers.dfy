// The recruitment entities, changed in place, and the handlers that load, change and save them. Each
// handler is proved to be the corresponding step of the Recruitment transition system.

module RecruitmentHandlers {
  import opened Wrappers
  import opened Pipeline
  import R = Recruitment

  class JobApplication {
    const user: UserId
    const job: R.JobId
    const cv: Option<R.CvId>
    var status: ApplicationStatus

    constructor (row: R.Application)
      ensures Row() == row
    {
      user, job, cv, status := row.user, row.job, row.cv, row.status;
    }

    function Row(): R.Application
      reads this
    {
      R.Application(user, job, cv, status)
    }

    method TransitionTo(newStatus: ApplicationStatus) returns (ok: bool)
      modifies this
      ensures ok <==>
                && old(status) !in {HIRED, REJECTED, WITHDRAWN}
                && (newStatus == REJECTED
                    || (newStatus !in {REJECTED, WITHDRAWN} && Rank(newStatus) == Rank(old(status)) + 1))
      ensures status == if ok then newStatus else old(status)
    {
      TransitionIff(status, newStatus);
      if !CanTransition(status, newStatus) {
        return false;
      }
      status := newStatus;
      return true;
    }

    method Withdraw() returns (ok: bool)
      modifies this
      ensures ok <==> old(status) !in {HIRED, REJECTED, WITHDRAWN}
      ensures status == if ok then WITHDRAWN else old(status)
    {
      TransitionIff(status, WITHDRAWN);
      if IsTerminal(status) {
        return false;
      }
      status := WITHDRAWN;
      return true;
    }
  }

  class Cv {
    const owner: UserId
    var published: bool
    var deletedAt: Option<nat>

    constructor (row: R.Cv)
      ensures Row() == row
    {
      owner, published, deletedAt := row.owner, row.published, row.deletedAt;
    }

    function Row(): R.Cv
      reads this
    {
      R.Cv(owner, published, deletedAt)
    }

    method Publish() returns (ok: bool)
      modifies this
      ensures ok <==> !old(published)
      ensures Row() == old(Row()).(published := true)
    {
      if published {
        return false;
      }
      published := true;
      return true;
    }

    method SoftDelete(now: nat) returns (ok: bool)
      modifies this
      ensures ok <==> old(deletedAt).None?
      ensures Row() == if ok then old(Row()).(deletedAt := Some(now)) else old(Row())
    {
      if deletedAt.Some? {
        return false;
      }
      deletedAt := Some(now);
      return true;
    }
  }

  class InterviewSchedule {
    const application: ApplicationId
    var scheduledAt: nat
    var location: Option<string>
    var meetingLink: Option<string>
    var status: R.InterviewStatus

    constructor (row: R.Interview)
      ensures Row() == row
    {
      application := row.application;
      scheduledAt, location, meetingLink, status := row.scheduledAt, row.location, row.meetingLink, row.status;
    }

    function Row(): R.Interview
      reads this
    {
      R.Interview(application, scheduledAt, location, meetingLink, status)
    }

    predicate Active()
      reads this
    {
      status == R.SCHEDULED || status == R.RESCHEDULED
    }

    /** The place is checked after the fields are assigned, so a refusal for want of a place leaves this
        object changed, and only this object. */
    method Reschedule(now: nat, c: R.Change) returns (outcome: R.Outcome)
      requires c.Reschedule?
      modifies this
      ensures outcome == R.ChangeOutcome(old(Row()), now, c)
      ensures outcome.Done? ==> Row() == R.Changed(old(Row()), c)
      ensures outcome == R.Refused(R.PlaceRequired) ==> Row() == R.Rescheduled(old(Row()), c)
      ensures outcome.Refused? && outcome.error != R.PlaceRequired ==> Row() == old(Row())
      ensures outcome.Done? <==>
                && old(status) in {R.SCHEDULED, R.RESCHEDULED}
                && now < (if c.at.Some? then c.at.value else old(scheduledAt))
                && !R.Nowhere(if c.location.Some? then c.location.value else old(location),
                              if c.meetingLink.Some? then c.meetingLink.value else old(meetingLink))
      ensures outcome.Done? ==>
        && scheduledAt == (if c.at.Some? then c.at.value else old(scheduledAt))
        && location == (if c.location.Some? then c.location.value else old(location))
        && meetingLink == (if c.meetingLink.Some? then c.meetingLink.value else old(meetingLink))
        && status == R.RESCHEDULED
    {
      var at := R.Kept(c.at, scheduledAt);
      if status == R.CANCELLED {
        return R.Refused(R.CannotRescheduleCancelled);
      }
      if !Active() {
        return R.Refused(R.NotActionable);
      }
      if at <= now {
        return R.Refused(R.TimeInPast);
      }
      scheduledAt := at;
      if c.location.Some? {
        location := c.location.value;
      }
      if c.meetingLink.Some? {
        meetingLink := c.meetingLink.value;
      }
      if !R.Present(location) && !R.Present(meetingLink) {
        return R.Refused(R.PlaceRequired);
      }
      status := R.RESCHEDULED;
      return R.Done;
    }

    /** Whichever change is asked for. */
    method Apply(now: nat, c: R.Change) returns (outcome: R.Outcome)
      modifies this
      ensures outcome == R.ChangeOutcome(old(Row()), now, c)
      ensures outcome.Done? ==> Row() == R.Changed(old(Row()), c)
    {
      if c.Reschedule? {
        outcome := Reschedule(now, c);
      } else {
        outcome := Finish(now, c);
      }
    }

    method Finish(now: nat, c: R.Change) returns (outcome: R.Outcome)
      requires !c.Reschedule?
      modifies this
      ensures outcome == R.ChangeOutcome(old(Row()), now, c)
      ensures Row() == if outcome.Done? then R.Changed(old(Row()), c) else old(Row())
      ensures outcome.Done? <==> old(status) in {R.SCHEDULED, R.RESCHEDULED}
      ensures outcome.Done? ==> status == match c
                                          case Cancel => R.CANCELLED
                                          case Complete => R.COMPLETED
                                          case MarkNoShow => R.NO_SHOW
    {
      if c.Cancel? && status == R.CANCELLED {
        return R.Refused(R.AlreadyCancelled);
      }
      if !Active() {
        return R.Refused(R.NotActionable);
      }
      status := if c.Cancel? then R.CANCELLED else if c.Complete? then R.COMPLETED else R.NO_SHOW;
      return R.Done;
    }
  }

  /** The database, with the handlers that work on it one command at a time. Every handler is one step of the
      transition system, so it keeps the database sound; it gives the answer its caller is owed, and its contract
      spells out what it has stored when that is Done. A refusal changes nothing. */
  class Database {
    var cvs: map<R.CvId, R.Cv>
    var jobs: map<R.JobId, R.Job>
    var applications: map<ApplicationId, R.Application>
    var history: seq<HistoryRow>
    var interviews: map<R.InterviewId, R.Interview>
    var conversations: map<R.ConversationId, R.Conversation>

    constructor ()
      ensures Valid() && State() == R.NO_ROWS
    {
      cvs, jobs, applications, history, interviews, conversations := map[], map[], map[], [], map[], map[];
    }

    function State(): R.Tables
      reads this
    {
      R.Tables(cvs, jobs, applications, history, interviews, conversations)
    }

    ghost predicate Valid()
      reads this
    {
      R.Sound(State())
    }

    /** Everything the job module and the clock can do to what job lookups answer. */
    method ChangeJobs(newJobs: map<R.JobId, R.Job>)
      requires Valid()
      modifies this
      ensures Valid() && State() == old(State()).(jobs := newJobs)
    {
      R.JobsChangeKeepsSound(State(), newJobs);
      jobs := newJobs;
    }

    // ---- CVs ----

    /** `CreateCvHandler`, as far as the row: a CV starts published. */
    method CreateCv(newId: R.CvId, user: UserId) returns (outcome: R.Outcome)
      requires Valid()
      modifies this
      ensures Valid() && R.Reply(State(), outcome) == R.CreateCv(old(State()), newId, user)
      ensures R.IsOwed(old(State()), R.CreateCvCommand(newId, user), outcome)
      ensures State() == if outcome.Refused? then old(State())
                         else old(State()).(cvs := old(cvs)[newId := R.Cv(user, true, None)])
    {
      R.CreateCvKeepsSound(State(), newId, user);
      R.EveryAnswerIsOwed(State(), R.CreateCvCommand(newId, user));
      hide R.Sound, R.IsOwed;
      if newId in cvs {
        return R.Refused(R.DuplicateKey);
      }
      cvs := cvs[newId := R.Cv(user, true, None)];
      return R.Done;
    }

    /** `PublishCvHandler`. */
    method PublishCv(user: UserId, id: R.CvId) returns (outcome: R.Outcome)
      requires Valid()
      modifies this
      ensures Valid() && R.Reply(State(), outcome) == R.PublishCv(old(State()), user, id)
      ensures R.IsOwed(old(State()), R.PublishCvCommand(user, id), outcome)
      ensures outcome.Refused? ==> State() == old(State())
      ensures outcome.Done? ==> State() == old(State()).(cvs := old(cvs)[id := R.Cv(user, true, None)])
    {
      R.PublishCvKeepsSound(State(), user, id);
      R.EveryAnswerIsOwed(State(), R.PublishCvCommand(user, id));
      hide R.Sound, R.IsOwed;
      if !R.CvVisible(State(), id) {
        return R.Refused(R.CvNotFound);
      }
      var cv := new Cv(cvs[id]);
      if cv.owner != user {
        return R.Refused(R.CvOwnership);
      }
      var ok := cv.Publish();
      if !ok {
        return R.Refused(R.CvAlreadyPublished);
      }
      cvs := cvs[id := cv.Row()];
      return R.Done;
    }

    /** `count({ where: { cvId, status: { notIn: [...] } } })`. */
    method CountActiveReferences(id: R.CvId) returns (count: nat)
      ensures count > 0 <==> R.HasActiveReference(applications, id)
      ensures count == |set a | a in applications && applications[a].cv == Some(id)
                                && applications[a].status !in {HIRED, REJECTED, WITHDRAWN}|
    {
      var holders := set a | a in applications && R.HoldsCv(applications[a], id);
      count := |holders|;
      assert holders == set a | a in applications && applications[a].cv == Some(id)
                                && applications[a].status !in {HIRED, REJECTED, WITHDRAWN};
      if R.HasActiveReference(applications, id) {
        ghost var a :| a in applications && R.HoldsCv(applications[a], id);
        assert a in holders;
      } else {
        assert holders == {};
      }
    }

    /** `DeleteCvHandler`: a CV that is gone from every lookup is held by settled applications only. */
    method DeleteCv(now: nat, user: UserId, id: R.CvId) returns (outcome: R.Outcome)
      requires Valid()
      modifies this
      ensures Valid() && R.Reply(State(), outcome) == R.DeleteCv(old(State()), now, user, id)
      ensures R.IsOwed(old(State()), R.DeleteCvCommand(now, user, id), outcome)
      ensures outcome.Refused? ==> State() == old(State())
      ensures outcome.Done? ==>
        State() == old(State()).(cvs := old(cvs)[id := R.Cv(user, old(cvs)[id].published, Some(now))])
      ensures outcome.Done? ==>
        forall a :: a in applications && applications[a].cv == Some(id) ==> IsTerminal(applications[a].status)
    {
      R.DeleteCvKeepsSound(State(), now, user, id);
      R.EveryAnswerIsOwed(State(), R.DeleteCvCommand(now, user, id));
      hide R.Sound, R.IsOwed;
      if !R.CvVisible(State(), id) {
        return R.Refused(R.CvNotFound);
      }
      var cv := new Cv(cvs[id]);
      if cv.owner != user {
        return R.Refused(R.CvOwnership);
      }
      var referenced := CountActiveReferences(id);
      if referenced > 0 {
        return R.Refused(R.CvReferencedByActiveApplication);
      }
      R.UnreferencedMeansSettled(applications, id);
      hide R.HasActiveReference;
      var ok := cv.SoftDelete(now);
      assert ok;
      cvs := cvs[id := cv.Row()];
      return R.Done;
    }

    /** `PurgeDeletedCvsHandler`: the candidates are read once, in whatever order the database lists them,
        and each is deleted on its own; a delete that throws is counted and skipped. What is past retention
        afterwards is what could not be deleted, and no open application is touched. */
    method PurgeDeletedCvs(now: nat, candidates: seq<R.CvId>, failing: set<R.CvId>)
      returns (purged: nat, failures: nat)
      requires Valid() && R.Lists(candidates, R.Purgeable(State(), now))
      modifies this
      ensures Valid() && State() == R.PurgeDeletedCvs(old(State()), now, failing).tables
      ensures purged + failures == |candidates|
      ensures purged == |R.Purgeable(old(State()), now) - failing|
      ensures R.PurgesWhatItCan(old(State()), State(), now, failing)
    {
      hide R.Sound, R.DropCvs, R.Purgeable, R.PurgesWhatItCan;
      R.PurgeKeepsSound(State(), now, failing);
      R.PurgeSparesOpenApplications(State(), now, failing);
      purged, failures := DropEach(candidates, R.Purgeable(State(), now), failing);
    }

    /** The loop. */
    method DropEach(candidates: seq<R.CvId>, ghost all: set<R.CvId>, failing: set<R.CvId>)
      returns (purged: nat, failures: nat)
      requires R.Lists(candidates, all)
      modifies this
      ensures State() == R.DropCvs(old(State()), all - failing)
      ensures purged + failures == |candidates| && purged == |all - failing|
    {
      assert R.ListedSoFar(candidates, 0) == {};
      hide R.DropCvs, R.ListedSoFar, R.Lists;
      purged, failures := 0, 0;
      ghost var gone: set<R.CvId> := {};
      ghost var t := State();
      R.DroppingNothing(t);
      for n := 0 to |candidates|
        invariant gone == R.ListedSoFar(candidates, n) - failing
        invariant State() == R.DropCvs(t, gone)
        invariant purged + failures == n && purged == |gone|
      {
        var id := candidates[n];
        R.NextListed(candidates, all, n);
        if id in failing {
          failures := failures + 1;
        } else {
          R.DroppingOneMore(t, gone, id);
          HardDelete(id);
          gone := gone + {id};
          purged := purged + 1;
        }
      }
      R.AllListed(candidates, all);
    }

    /** One row's delete, with the foreign key's SetNull. */
    method HardDelete(id: R.CvId)
      modifies this
      ensures State() == R.DropCvs(old(State()), {id})
    {
      cvs := cvs - {id};
      applications := map a | a in applications :: R.WithoutCv(applications[a], {id});
    }

    // ---- Applications ----

    /** `ApplyJobHandler`. Its check that the CV is not deleted cannot fire: the lookup hides deleted CVs. */
    method Apply(newId: ApplicationId, user: UserId, job: R.JobId, cv: R.CvId) returns (outcome: R.Outcome)
      requires Valid()
      modifies this
      ensures Valid() && R.Reply(State(), outcome) == R.Apply(old(State()), newId, user, job, cv)
      ensures R.IsOwed(old(State()), R.ApplyJobCommand(newId, user, job, cv), outcome)
      ensures State() == if outcome.Refused? then old(State())
                         else old(State()).(applications :=
                                old(applications)[newId := R.Application(user, job, Some(cv), APPLIED)])
      ensures outcome.Done? ==> Log(history, newId) == []
      ensures outcome.Done? ==>
        forall a :: a in applications && applications[a].user == user && applications[a].job == job ==> a == newId
    {
      R.ApplyKeepsSound(State(), newId, user, job, cv);
      R.NewApplicationHasNoLog(State(), newId);
      R.EveryAnswerIsOwed(State(), R.ApplyJobCommand(newId, user, job, cv));
      hide R.Sound, R.IsOwed, Log;
      if job !in jobs {
        return R.Refused(R.JobNotFound);
      }
      if !R.CvVisible(State(), cv) {
        return R.Refused(R.CvNotFound);
      }
      var j, c := jobs[job], cvs[cv];
      if !j.isOpen {
        return R.Refused(R.JobNotAccepting);
      }
      if j.isExpired {
        return R.Refused(R.JobExpired);
      }
      if j.isDeleted {
        return R.Refused(R.JobRemoved);
      }
      if !c.published {
        return R.Refused(R.CvNotPublished);
      }
      if c.owner != user {
        return R.Refused(R.CvOwnership);
      }
      if exists a :: a in applications && applications[a].user == user && applications[a].job == job {
        return R.Refused(R.AlreadyApplied);
      }
      if newId in applications {
        return R.Refused(R.AlreadyApplied);
      }
      applications := applications[newId := R.Application(user, job, Some(cv), APPLIED)];
      return R.Done;
    }

    /** `updateWithHistory`: both writes in one transaction. */
    method UpdateWithHistory(a: ApplicationId, row: R.Application, entry: HistoryRow)
      requires a in applications && row == applications[a].(status := entry.to)
      requires entry.application == a && entry.from == applications[a].status
      modifies this
      ensures State() == R.Move(old(State()), a, entry.to, entry.changedBy)
      ensures Log(history, a) == Log(old(history), a) + [entry] && applications[a].status == entry.to
    {
      LogGrows(history, entry, a);
      applications := applications[a := row];
      history := history + [entry];
    }

    /** `UpdateApplicationStatusHandler`: the job's poster moves an open application to the next rung of the ladder or
        to REJECTED, and to nothing else; the history gains that move. */
    method UpdateStatus(recruiter: UserId, a: ApplicationId, to: ApplicationStatus) returns (outcome: R.Outcome)
      requires Valid()
      modifies this
      ensures Valid() && R.Reply(State(), outcome) == R.UpdateStatus(old(State()), recruiter, a, to)
      ensures outcome.Done? <==>
        && a in old(applications) && old(applications)[a].job in jobs
        && jobs[old(applications)[a].job].postedBy == recruiter
        && old(applications)[a].status !in {HIRED, REJECTED, WITHDRAWN}
        && (to == REJECTED || (to !in {REJECTED, WITHDRAWN} && Rank(to) == Rank(old(applications)[a].status) + 1))
      ensures R.IsOwed(old(State()), R.UpdateStatusCommand(recruiter, a, to), outcome)
      ensures outcome.Refused? ==> State() == old(State())
      ensures outcome.Done? ==>
        && State() == old(State()).(
             applications := old(applications)[a := old(applications)[a].(status := to)],
             history := old(history) + [HistoryRow(a, old(applications)[a].status, to, recruiter)])
        && Log(history, a) == Log(old(history), a) + [HistoryRow(a, old(applications)[a].status, to, recruiter)]
    {
      R.UpdateStatusKeepsSound(State(), recruiter, a, to);
      R.MovesForward(State(), recruiter, a, to);
      R.EveryAnswerIsOwed(State(), R.UpdateStatusCommand(recruiter, a, to));
      hide R.Sound, R.UpdateStatus, R.IsOwed, Log, Rank;
      outcome := MoveRow(recruiter, a, to);
    }

    /** Its checks and its two writes. */
    method MoveRow(recruiter: UserId, a: ApplicationId, to: ApplicationStatus) returns (outcome: R.Outcome)
      modifies this
      ensures R.Reply(State(), outcome) == R.UpdateStatus(old(State()), recruiter, a, to)
    {
      hide R.Move, Log, Rank;
      if a in applications {
        TransitionIff(applications[a].status, to);
      }
      if a !in applications {
        return R.Refused(R.ApplicationNotFound);
      }
      var application := new JobApplication(applications[a]);
      if application.job !in jobs {
        return R.Refused(R.JobNotFound);
      }
      if jobs[application.job].postedBy != recruiter {
        return R.Refused(R.AccessDenied);
      }
      var fromStatus := application.status;
      var ok := application.TransitionTo(to);
      if !ok {
        return R.Refused(R.InvalidTransition);
      }
      UpdateWithHistory(a, application.Row(), HistoryRow(a, fromStatus, application.status, recruiter));
      return R.Done;
    }

    /** `WithdrawApplicationHandler`: the applicant, and nobody else, withdraws an open application. */
    method Withdraw(user: UserId, a: ApplicationId) returns (outcome: R.Outcome)
      requires Valid()
      modifies this
      ensures Valid() && R.Reply(State(), outcome) == R.Withdraw(old(State()), user, a)
      ensures outcome.Refused? ==> State() == old(State())
      ensures outcome.Done? <==>
        && a in old(applications) && old(applications)[a].user == user
        && old(applications)[a].status !in {HIRED, REJECTED, WITHDRAWN}
      ensures R.IsOwed(old(State()), R.WithdrawCommand(user, a), outcome)
      ensures outcome.Done? ==>
        && State() == old(State()).(
             applications := old(applications)[a := old(applications)[a].(status := WITHDRAWN)],
             history := old(history) + [HistoryRow(a, old(applications)[a].status, WITHDRAWN, user)])
        && Log(history, a) == Log(old(history), a) + [HistoryRow(a, old(applications)[a].status, WITHDRAWN, user)]
    {
      R.WithdrawKeepsSound(State(), user, a);
      R.WithdrawsOpen(State(), user, a);
      R.EveryAnswerIsOwed(State(), R.WithdrawCommand(user, a));
      hide R.Sound, R.IsOwed, R.Move, Log;
      if a !in applications {
        return R.Refused(R.ApplicationNotFound);
      }
      var application := new JobApplication(applications[a]);
      if application.user != user {
        return R.Refused(R.AccessDenied);
      }
      var fromStatus := application.status;
      var ok := application.Withdraw();
      if !ok {
        return R.Refused(R.InvalidTransition);
      }
      UpdateWithHistory(a, application.Row(), HistoryRow(a, fromStatus, application.status, user));
      return R.Done;
    }

    // ---- Interviews ----

    /** The guards the four interview handlers share: they pass only on an open application, for the poster
        of its job. */
    method EnsureInterviewable(recruiter: UserId, a: ApplicationId) returns (outcome: R.Outcome)
      ensures outcome == R.Interviewable(State(), recruiter, a)
      ensures outcome.Done? <==>
        && a in applications && applications[a].status !in {HIRED, REJECTED, WITHDRAWN}
        && applications[a].job in jobs && jobs[applications[a].job].postedBy == recruiter
    {
      if a !in applications {
        return R.Refused(R.ApplicationNotFound);
      }
      var application := applications[a];
      if application.status in NOT_INTERVIEWABLE {
        return R.Refused(R.NotInterviewable);
      }
      if application.job !in jobs {
        return R.Refused(R.JobNotFound);
      }
      return if jobs[application.job].postedBy == recruiter then R.Done else R.Refused(R.AccessDenied);
    }

    /** `ScheduleInterviewHandler`: the new interview is the application's one active interview, lies ahead and
        has a place. */
    method Schedule(now: nat, newId: R.InterviewId, recruiter: UserId, a: ApplicationId, at: nat,
                    location: Option<string>, meetingLink: Option<string>) returns (outcome: R.Outcome)
      requires Valid()
      modifies this
      ensures Valid()
      ensures R.Reply(State(), outcome)
              == R.Schedule(old(State()), now, newId, recruiter, a, at, location, meetingLink)
      ensures R.IsOwed(old(State()), R.ScheduleCommand(now, newId, recruiter, a, at, location, meetingLink), outcome)
      ensures State() == if outcome.Refused? then old(State())
                         else old(State()).(interviews :=
                                old(interviews)[newId := R.Interview(a, at, location, meetingLink, R.SCHEDULED)])
      ensures outcome.Done? ==> R.IsTheActiveInterview(State(), newId, a, now)
    {
      hide R.Sound, R.Schedule, R.IsTheActiveInterview, R.IsOwed;
      R.EveryAnswerIsOwed(State(), R.ScheduleCommand(now, newId, recruiter, a, at, location, meetingLink));
      R.ScheduleKeepsSound(State(), now, newId, recruiter, a, at, location, meetingLink);
      R.ScheduledAlone(State(), now, newId, recruiter, a, at, location, meetingLink);
      outcome := ScheduleRow(now, newId, recruiter, a, at, location, meetingLink);
    }

    /** Its checks and its insert. */
    method ScheduleRow(now: nat, newId: R.InterviewId, recruiter: UserId, a: ApplicationId, at: nat,
                       location: Option<string>, meetingLink: Option<string>) returns (outcome: R.Outcome)
      modifies this
      ensures R.Reply(State(), outcome)
              == R.Schedule(old(State()), now, newId, recruiter, a, at, location, meetingLink)
    {
      hide R.Interviewable;
      outcome := EnsureInterviewable(recruiter, a);
      if outcome.Refused? {
        return;
      }
      if at <= now {
        return R.Refused(R.TimeInPast);
      }
      if exists i :: i in interviews && interviews[i].application == a && R.IsActive(interviews[i]) {
        return R.Refused(R.AlreadyScheduled);
      }
      var interview := new InterviewSchedule(R.Interview(a, at, location, meetingLink, R.SCHEDULED));
      if !R.Present(interview.location) && !R.Present(interview.meetingLink) {
        return R.Refused(R.PlaceRequired);
      }
      if newId in interviews {
        return R.Refused(R.DuplicateKey);
      }
      interviews := interviews[newId := interview.Row()];
    }

    /** The reschedule, cancel, complete and no-show handlers. A refused change is never written back, so a
        half-changed entity stays in memory; a change that goes through was one of an active interview of an
        open application, and only a reschedule leaves the interview active. */
    method ChangeInterview(now: nat, recruiter: UserId, id: R.InterviewId, c: R.Change) returns (outcome: R.Outcome)
      requires Valid()
      modifies this
      ensures Valid()
      ensures R.Reply(State(), outcome) == R.ChangeInterview(old(State()), now, recruiter, id, c)
      ensures R.IsOwed(old(State()), R.ChangeInterviewCommand(now, recruiter, id, c), outcome)
      ensures outcome.Refused? ==> State() == old(State())
      ensures outcome.Done? ==> R.ChangedWhileActive(old(State()), State(), now, id, c)
    {
      R.EveryAnswerIsOwed(State(), R.ChangeInterviewCommand(now, recruiter, id, c));
      R.ChangeKeepsSound(State(), now, recruiter, id, c);
      R.ChangeOfActive(State(), now, recruiter, id, c);
      hide R.Sound, R.ChangeInterview, R.ChangedWhileActive, R.IsOwed;
      outcome := ChangeRow(now, recruiter, id, c);
    }

    /** Their checks, the change in memory, and the write. */
    method ChangeRow(now: nat, recruiter: UserId, id: R.InterviewId, c: R.Change) returns (outcome: R.Outcome)
      modifies this
      ensures R.Reply(State(), outcome) == R.ChangeInterview(old(State()), now, recruiter, id, c)
    {
      hide R.Interviewable, R.ChangeOutcome, R.Changed;
      if id !in interviews {
        return R.Refused(R.InterviewNotFound);
      }
      var interview := new InterviewSchedule(interviews[id]);
      outcome := EnsureInterviewable(recruiter, interview.application);
      if outcome.Refused? {
        return;
      }
      outcome := interview.Apply(now, c);
      if outcome.Done? {
        interviews := interviews[id := interview.Row()];
      }
    }

    // ---- Conversations ----

    /** The checks before a conversation is looked up: a hired application, for the poster of its job. */
    method EnsureMayTalk(recruiter: UserId, a: ApplicationId) returns (outcome: R.Outcome)
      ensures outcome == R.MayTalk(State(), recruiter, a)
      ensures outcome.Done? <==>
        && a in applications && applications[a].status == HIRED
        && applications[a].job in jobs && jobs[applications[a].job].postedBy == recruiter
    {
      if a !in applications {
        return R.Refused(R.ApplicationNotFound);
      }
      var application := applications[a];
      if application.status != ELIGIBLE_FOR_CHAT {
        return R.Refused(R.NotHired);
      }
      if application.job !in jobs {
        return R.Refused(R.JobNotFound);
      }
      return if jobs[application.job].postedBy == recruiter then R.Done else R.Refused(R.AccessDenied);
    }

    /** `CreateConversationHandler` with a serial find-or-create: the hired application has one conversation
        afterwards, with the applicant in it, and an earlier one is kept as it was. */
    method StartConversation(newId: R.ConversationId, recruiter: UserId, a: ApplicationId) returns (outcome: R.Outcome)
      requires Valid()
      modifies this
      ensures Valid()
      ensures R.Reply(State(), outcome) == R.StartConversation(old(State()), newId, recruiter, a)
      ensures R.IsOwed(old(State()), R.CreateConversationCommand(newId, recruiter, a), outcome)
      ensures outcome.Refused? ==> State() == old(State())
      ensures outcome.Done? ==> R.FoundOrAdded(old(State()), State(), newId, recruiter, a)
      ensures outcome.Done? ==> R.HiredWithOneConversation(State(), a)
      ensures R.Keeps(old(conversations), conversations)
    {
      R.EveryAnswerIsOwed(State(), R.CreateConversationCommand(newId, recruiter, a));
      R.StartConversationKeepsSound(State(), newId, recruiter, a);
      R.ConversationIsStarted(State(), newId, recruiter, a);
      hide R.Sound, R.StartConversation, R.HiredWithOneConversation, R.Keeps, R.FoundOrAdded, R.IsOwed;
      outcome := FindOrCreate(newId, recruiter, a);
    }

    /** Its checks and a serial find-or-create. */
    method FindOrCreate(newId: R.ConversationId, recruiter: UserId, a: ApplicationId) returns (outcome: R.Outcome)
      modifies this
      ensures R.Reply(State(), outcome) == R.StartConversation(old(State()), newId, recruiter, a)
    {
      hide R.MayTalk;
      outcome := EnsureMayTalk(recruiter, a);
      if outcome.Refused? {
        return;
      }
      if exists c :: c in conversations && conversations[c].application == a {
        return R.Done;
      }
      if newId in conversations {
        return R.Refused(R.DuplicateKey);
      }
      var application := applications[a];
      conversations := conversations[newId := R.Conversation(application.job, a, application.user, recruiter)];
    }
  }
}
