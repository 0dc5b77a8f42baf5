// Job postings: the status machine, what public search shows, what an application meets, and the hourly
// closing of expired jobs.

module JobBoard {
  import opened Wrappers

  type JobId = nat
  type UserId = nat

  datatype Status = DRAFT | OPEN | CLOSED

  datatype Job = Job(poster: UserId, status: Status, expiresAt: Option<nat>, deletedAt: Option<nat>)

  type Jobs = map<JobId, Job>

  predicate IsExpired(j: Job, now: nat) {
    j.expiresAt.Some? && j.expiresAt.value < now
  }

  predicate IsOpen(j: Job, now: nat) {
    j.status == OPEN && !IsExpired(j, now) && j.deletedAt.None?
  }

  /** The fixed part of the public search's `where`. */
  predicate Searchable(j: Job, now: nat) {
    j.deletedAt.None? && j.status == OPEN && (j.expiresAt.None? || j.expiresAt.value > now)
  }

  /** The closing job's `where`. */
  predicate ExpiredOpen(j: Job, now: nat) {
    j.status == OPEN && j.deletedAt.None? && j.expiresAt.Some? && j.expiresAt.value < now
  }

  /** What applying meets on the job's side: the lookup hides deleted jobs, then come the three checks. The
      lookup reads the clock twice, at `now` for isOpen and at `later` for isExpired. */
  datatype Reception = NotFound | NotAccepting | Expired | Removed | Welcome

  function Receive(t: Jobs, id: JobId, now: nat, later: nat): Reception {
    if id !in t || t[id].deletedAt.Some? then NotFound
    else if !IsOpen(t[id], now) then NotAccepting
    else if IsExpired(t[id], later) then Expired
    else if t[id].deletedAt.Some? then Removed
    else Welcome
  }

  function Search(t: Jobs, now: nat): set<JobId> {
    set id | id in t && Searchable(t[id], now)
  }

  /** Every job search returns is open at that instant and welcomes an application; the two differ exactly
      at the very instant of expiry, when a job is still open but no longer shown. */
  lemma SearchShowsOpenJobs(t: Jobs, id: JobId, now: nat)
    ensures id in Search(t, now) ==> IsOpen(t[id], now) && Receive(t, id, now, now) == Welcome
    ensures id in t && IsOpen(t[id], now) ==> (id !in Search(t, now) <==> t[id].expiresAt == Some(now))
    ensures Receive(t, id, now, now) == Welcome <==> id in t && IsOpen(t[id], now)
    ensures id in Search(t, now)
      <==> && id in t && t[id].status == OPEN && t[id].deletedAt == None
           && (t[id].expiresAt == None || now < t[id].expiresAt.value)
    ensures Receive(t, id, now, now) == Welcome
      <==> && id in t && t[id].status == OPEN && t[id].deletedAt == None
           && (t[id].expiresAt == None || now <= t[id].expiresAt.value)
  {
    if id in t && Searchable(t[id], now) {
      assert id in Search(t, now);
    }
  }

  /** An application is told that a job has expired only when the expiry falls between the two clock
      readings of its lookup; any earlier expiry reads as not accepting, and a removed job is never found, so
      that refusal cannot occur at all. */
  lemma ExpiryIsReportedOnlyBetweenReadings(t: Jobs, id: JobId, now: nat, later: nat)
    requires now <= later
    ensures Receive(t, id, now, later) == Expired
            <==> id in t && IsOpen(t[id], now) && t[id].expiresAt.Some? && now <= t[id].expiresAt.value < later
    ensures id in t && IsExpired(t[id], now) && t[id].deletedAt.None? ==> Receive(t, id, now, later) == NotAccepting
    ensures Receive(t, id, now, later) != Removed
  {}

  // ---- Commands ----

  /** What candidates ask, what recruiters do to their jobs, and the closing job. `written` are the jobs
      whose update went through: one that is rejected ends the closing job early. */
  datatype Call =
    | SearchJobs
    | ApplyTo(id: JobId, later: nat)
    | CreateJob(recruiter: UserId, newId: JobId, expiresAt: Option<nat>)
    | CloseJob(recruiter: UserId, id: JobId)
    | ReopenJob(recruiter: UserId, id: JobId)
    | UpdateJob(recruiter: UserId, id: JobId, expiresAt: Option<nat>)
    | DeleteJob(recruiter: UserId, id: JobId)
    | CloseExpiredJobs(written: set<JobId>)

  datatype Outcome = Done | JobNotFound | NotOwner | AlreadyClosed | NotClosed | DuplicateKey

  predicate ChangesOwnJob(c: Call) {
    c.CloseJob? || c.ReopenJob? || c.UpdateJob? || c.DeleteJob?
  }

  /** The lookup finds the job and it is the recruiter's own. */
  predicate MayChange(t: Jobs, recruiter: UserId, id: JobId) {
    id in t && t[id].deletedAt.None? && t[id].poster == recruiter
  }

  /** What a recruiter is told. */
  function Respond(t: Jobs, c: Call): Outcome {
    if c.CreateJob? then if c.newId in t then DuplicateKey else Done
    else if !ChangesOwnJob(c) then Done
    else if c.id !in t || t[c.id].deletedAt.Some? then JobNotFound
    else if t[c.id].poster != c.recruiter then NotOwner
    else if c.CloseJob? && t[c.id].status == CLOSED then AlreadyClosed
    else if c.ReopenJob? && t[c.id].status != CLOSED then NotClosed
    else Done
  }

  function Changed(j: Job, c: Call, now: nat): Job
    requires ChangesOwnJob(c)
  {
    match c
    case CloseJob(_, _) => j.(status := CLOSED)
    case ReopenJob(_, _) => j.(status := OPEN)
    case UpdateJob(_, _, expiresAt) => if expiresAt.Some? then j.(expiresAt := expiresAt) else j
    case DeleteJob(_, _) => j.(status := CLOSED, deletedAt := Some(now))
  }

  function ClosedIfExpired(j: Job, now: nat): Job {
    if ExpiredOpen(j, now) then j.(status := CLOSED) else j
  }

  function CloseExpired(t: Jobs, written: set<JobId>, now: nat): Jobs {
    map id | id in t :: if id in written then ClosedIfExpired(t[id], now) else t[id]
  }

  function Next(t: Jobs, c: Call, now: nat): Jobs {
    if c.CloseExpiredJobs? then CloseExpired(t, c.written, now)
    else if Respond(t, c) != Done then t
    else if c.CreateJob? then t[c.newId := Job(c.recruiter, OPEN, c.expiresAt, None)]
    else if ChangesOwnJob(c) then t[c.id := Changed(t[c.id], c, now)]
    else t
  }

  datatype Reply = Found(ids: set<JobId>) | Received(r: Reception) | Silent

  /** What a searcher or an applicant hears. */
  function Answer(t: Jobs, c: Call, now: nat): Reply {
    match c
    case SearchJobs => Found(Search(t, now))
    case ApplyTo(id, later) => Received(Receive(t, id, now, later))
    case _ => Silent
  }

  datatype Run = End | Step(at: nat, call: Call, rest: Run)

  ghost predicate Clocked(now: nat, run: Run)
    decreases run
  {
    run.Step? ==> now <= run.at && Clocked(run.at, run.rest)
  }

  function Answers(t: Jobs, run: Run): seq<Reply>
    decreases run
  {
    if run.End? then [] else [Answer(t, run.call, run.at)] + Answers(Next(t, run.call, run.at), run.rest)
  }

  function After(t: Jobs, run: Run): Jobs
    decreases run
  {
    if run.End? then t else After(Next(t, run.call, run.at), run.rest)
  }

  lemma ClosedSoFar(t: Jobs, u: Jobs, ids: seq<JobId>, n: nat, now: nat)
    requires n <= |ids| && forall id :: id in ids ==> id in t && ExpiredOpen(t[id], now)
    requires u.Keys == t.Keys
    requires forall id :: id in t ==> u[id] == if id in ids[..n] then t[id].(status := CLOSED) else t[id]
    ensures u == CloseExpired(t, (set id | id in ids[..n]), now)
  {
    assert forall id :: id in ids[..n] ==> id in ids;
  }

  // ---- The same run without the closing job ----

  function NextUnclosed(t: Jobs, c: Call, now: nat): Jobs {
    if c.CloseExpiredJobs? then t else Next(t, c, now)
  }

  /** What the candidates of a run would hear if the closing job never ran. */
  function AnswersUnclosed(t: Jobs, run: Run): seq<Reply>
    decreases run
  {
    if run.End? then []
    else [Answer(t, run.call, run.at)] + AnswersUnclosed(NextUnclosed(t, run.call, run.at), run.rest)
  }

  function AfterUnclosed(t: Jobs, run: Run): Jobs
    decreases run
  {
    if run.End? then t else AfterUnclosed(NextUnclosed(t, run.call, run.at), run.rest)
  }

  predicate AtMostClosed(j: Job, u: Job) {
    j == u || (u.status == OPEN && u.deletedAt.None? && j == u.(status := CLOSED))
  }

  /** `t` is `u`, except that the closing job closed some jobs that are open in `u`. */
  ghost predicate ClosedApart(t: Jobs, u: Jobs) {
    t.Keys == u.Keys && forall id :: id in t ==> AtMostClosed(t[id], u[id])
  }

  predicate Differ(t: Jobs, u: Jobs, id: JobId) {
    id in t && id in u && t[id] != u[id]
  }

  /** ... and each of those has expired. */
  ghost predicate Alike(t: Jobs, u: Jobs, now: nat) {
    ClosedApart(t, u) && forall id :: Differ(t, u, id) ==> IsExpired(u[id], now)
  }

  lemma OwnJobsStayApart(t: Jobs, u: Jobs, c: Call, now: nat)
    requires ClosedApart(t, u) && ChangesOwnJob(c)
    ensures ClosedApart(Next(t, c, now), NextUnclosed(u, c, now))
  {
    assert c.id in t ==> AtMostClosed(t[c.id], u[c.id]);
  }

  /** Whatever is commanded, the closing job never makes more of a difference than that. */
  lemma ClosedApartStep(t: Jobs, u: Jobs, c: Call, now: nat)
    requires ClosedApart(t, u)
    ensures ClosedApart(Next(t, c, now), NextUnclosed(u, c, now))
  {
    hide Changed;
    if ChangesOwnJob(c) {
      OwnJobsStayApart(t, u, c, now);
    } else if c.CloseExpiredJobs? {
      assert forall id :: id in t ==> AtMostClosed(t[id], u[id]);
    }
  }

  ghost predicate SameView(t: Jobs, u: Jobs, at: nat) {
    && Search(t, at) == Search(u, at)
    && forall id, later :: Receive(t, id, at, later) == Receive(u, id, at, later)
  }

  ghost predicate SameViewFrom(t: Jobs, u: Jobs, now: nat) {
    forall at :: now <= at ==> SameView(t, u, at)
  }

  /** No search and no application, now or later, can tell the tables apart if and only if they differ in
      expired jobs alone. */
  lemma AlikeIffNobodyCanTell(t: Jobs, u: Jobs, now: nat)
    requires ClosedApart(t, u)
    ensures Alike(t, u, now) <==> SameViewFrom(t, u, now)
  {
    if Alike(t, u, now) {
      forall at | now <= at ensures SameView(t, u, at) {
        assert forall id :: id in t ==> AtMostClosed(t[id], u[id]) && (Differ(t, u, id) ==> IsExpired(u[id], at));
        assert Search(t, at) == Search(u, at);
      }
    } else {
      var id :| Differ(t, u, id) && !IsExpired(u[id], now);
      assert Receive(t, id, now, now) != Receive(u, id, now, now);
      assert !SameView(t, u, now);
    }
  }

  /** The recruiter of an expired job moves its expiry to now or later after the closing job has closed it. */
  predicate Revives(t: Jobs, u: Jobs, c: Call, now: nat) {
    && c.UpdateJob? && c.expiresAt.Some? && c.expiresAt.value >= now
    && MayChange(u, c.recruiter, c.id) && Differ(t, u, c.id)
  }

  lemma AlikeStepIff(t: Jobs, u: Jobs, c: Call, now: nat)
    requires Alike(t, u, now)
    ensures Alike(Next(t, c, now), NextUnclosed(u, c, now), now) <==> !Revives(t, u, c, now)
  {
    ClosedApartStep(t, u, c, now);
    var t', u' := Next(t, c, now), NextUnclosed(u, c, now);
    if Revives(t, u, c, now) {
      assert AtMostClosed(t[c.id], u[c.id]);
      assert Differ(t', u', c.id);
    } else {
      forall id | Differ(t', u', id) ensures IsExpired(u'[id], now) {
        assert id in t ==> AtMostClosed(t[id], u[id]);
      }
    }
  }

  /** At every moment of the run nobody who searches or applies from then on could tell. */
  ghost predicate NeverTells(t: Jobs, u: Jobs, now: nat, run: Run)
    decreases run
  {
    && SameViewFrom(t, u, now)
    && (run.Step? ==> NeverTells(Next(t, run.call, run.at), NextUnclosed(u, run.call, run.at), run.at, run.rest))
  }

  ghost predicate NoRevival(t: Jobs, u: Jobs, run: Run)
    decreases run
  {
    run.Step? ==>
      && !Revives(t, u, run.call, run.at)
      && NoRevival(Next(t, run.call, run.at), NextUnclosed(u, run.call, run.at), run.rest)
  }

  /** Over every run of all the job commands on a clock that never goes back: the closing job can be noticed
      by a search or an application if and only if some recruiter moves the expiry of a job it closed to that
      moment or later. */
  lemma {:induction false} ClosingIsNoticedIffRevived(t: Jobs, u: Jobs, now: nat, run: Run)
    requires Alike(t, u, now) && Clocked(now, run)
    ensures NeverTells(t, u, now, run) <==> NoRevival(t, u, run)
    decreases run
  {
    hide Next, Revives, SameViewFrom;
    AlikeIffNobodyCanTell(t, u, now);
    if run.Step? {
      var t', u' := Next(t, run.call, run.at), NextUnclosed(u, run.call, run.at);
      AlikeStaysAlike(t, u, now, run.at);
      AlikeStepIff(t, u, run.call, run.at);
      ClosedApartStep(t, u, run.call, run.at);
      AlikeIffNobodyCanTell(t', u', run.at);
      if Alike(t', u', run.at) {
        ClosingIsNoticedIffRevived(t', u', run.at, run.rest);
      } else {
        TellingAtOnce(t', u', run.at, run.rest);
      }
    }
  }

  lemma TellingAtOnce(t: Jobs, u: Jobs, now: nat, run: Run)
    requires !SameViewFrom(t, u, now)
    ensures !NeverTells(t, u, now, run)
  {}

  lemma AlikeStaysAlike(t: Jobs, u: Jobs, now: nat, later: nat)
    requires Alike(t, u, now) && now <= later
    ensures Alike(t, u, later)
  {}

  /** So without such a revival every searcher and every applicant of the run hears what they would have heard
      had the closing job never run. */
  lemma {:induction false} ClosingIsUnobservable(t: Jobs, u: Jobs, now: nat, run: Run)
    requires Alike(t, u, now) && Clocked(now, run) && NoRevival(t, u, run)
    ensures Answers(t, run) == AnswersUnclosed(u, run)
    decreases run
  {
    hide Next, Revives;
    if run.Step? {
      AlikeStaysAlike(t, u, now, run.at);
      AlikeIffNobodyCanTell(t, u, run.at);
      assert SameView(t, u, run.at);
      AlikeStepIff(t, u, run.call, run.at);
      var t', u' := Next(t, run.call, run.at), NextUnclosed(u, run.call, run.at);
      ClosingIsUnobservable(t', u', run.at, run.rest);
    }
  }

  predicate Touches(c: Call, id: JobId) {
    ChangesOwnJob(c) && c.id == id
  }

  ghost predicate NeverTouched(run: Run, id: JobId)
    decreases run
  {
    run.Step? ==> !Touches(run.call, id) && NeverTouched(run.rest, id)
  }

  lemma {:induction false} UntouchedStaysClosed(t: Jobs, u: Jobs, run: Run, id: JobId)
    requires ClosedApart(t, u) && Differ(t, u, id) && NeverTouched(run, id)
    ensures id in After(t, run) && After(t, run)[id] == t[id]
    ensures id in AfterUnclosed(u, run) && AfterUnclosed(u, run)[id] == u[id]
    decreases run
  {
    if run.Step? {
      var t', u' := Next(t, run.call, run.at), NextUnclosed(u, run.call, run.at);
      ClosedApartStep(t, u, run.call, run.at);
      assert AtMostClosed(t[id], u[id]);
      assert t'[id] == t[id] && u'[id] == u[id];
      UntouchedStaysClosed(t', u', run.rest, id);
    }
  }

  /** What such a revival shows: once a closed job's expiry has been moved to `e` and nobody has changed the
      job since, search differs exactly before `e` and the outcome of applying exactly up to and including
      `e`, whatever else has happened meanwhile. */
  lemma RevivedJobShows(t: Jobs, u: Jobs, recruiter: UserId, id: JobId, e: nat, now: nat, run: Run, at: nat)
    requires ClosedApart(t, u) && Differ(t, u, id) && MayChange(u, recruiter, id) && NeverTouched(run, id)
    ensures
      var moved := UpdateJob(recruiter, id, Some(e));
      var closed, unclosed := After(Next(t, moved, now), run), AfterUnclosed(NextUnclosed(u, moved, now), run);
      && ((id in Search(closed, at)) != (id in Search(unclosed, at)) <==> at < e)
      && (Receive(closed, id, at, at) != Receive(unclosed, id, at, at) <==> at <= e)
  {
    var moved := UpdateJob(recruiter, id, Some(e));
    assert AtMostClosed(t[id], u[id]);
    ClosedApartStep(t, u, moved, now);
    UntouchedStaysClosed(Next(t, moved, now), NextUnclosed(u, moved, now), run, id);
  }

  /** The recruiter hears the difference only when closing or reopening a job the closing job has closed. */
  lemma RecruiterHearsIff(t: Jobs, u: Jobs, c: Call)
    requires ClosedApart(t, u)
    ensures Respond(t, c) != Respond(u, c)
            <==> (c.CloseJob? || c.ReopenJob?) && MayChange(u, c.recruiter, c.id) && Differ(t, u, c.id)
  {
    assert ChangesOwnJob(c) && c.id in t ==> AtMostClosed(t[c.id], u[c.id]);
  }
}

/** The job entity and the handlers, on a table updated in place, one command at a time. */
module JobHandlers {
  import opened Wrappers
  import B = JobBoard

  class Job {
    const poster: B.UserId
    var status: B.Status
    var expiresAt: Option<nat>
    var deletedAt: Option<nat>

    constructor (row: B.Job)
      ensures Row() == row
    {
      poster, status, expiresAt, deletedAt := row.poster, row.status, row.expiresAt, row.deletedAt;
    }

    function Row(): B.Job
      reads this
    {
      B.Job(poster, status, expiresAt, deletedAt)
    }

    method Open() returns (ok: bool)
      modifies this
      ensures ok <==> old(status) != B.OPEN
      ensures Row() == old(Row()).(status := B.OPEN)
    {
      if status == B.OPEN {
        return false;
      }
      status := B.OPEN;
      return true;
    }

    method Close() returns (ok: bool)
      modifies this
      ensures ok <==> old(status) != B.CLOSED
      ensures Row() == old(Row()).(status := B.CLOSED)
    {
      if status == B.CLOSED {
        return false;
      }
      status := B.CLOSED;
      return true;
    }

    method Reopen() returns (ok: bool)
      modifies this
      ensures ok <==> old(status) == B.CLOSED
      ensures Row() == if ok then old(Row()).(status := B.OPEN) else old(Row())
    {
      if status != B.CLOSED {
        return false;
      }
      status := B.OPEN;
      return true;
    }

    method SoftDelete(now: nat) returns (ok: bool)
      modifies this
      ensures ok <==> old(deletedAt).None?
      ensures Row() == if ok then old(Row()).(status := B.CLOSED, deletedAt := Some(now)) else old(Row())
    {
      if deletedAt.Some? {
        return false;
      }
      deletedAt := Some(now);
      status := B.CLOSED;
      return true;
    }

    method UpdateDetails(newExpiry: Option<nat>)
      modifies this
      ensures Row() == if newExpiry.Some? then old(Row()).(expiresAt := newExpiry) else old(Row())
    {
      if newExpiry.Some? {
        expiresAt := newExpiry;
      }
    }
  }

  class JobTable {
    var jobs: B.Jobs

    constructor ()
      ensures jobs == map[]
    {
      jobs := map[];
    }

    /** `CreateJobHandler`: a job is opened as it is created. */
    method CreateJob(recruiter: B.UserId, newId: B.JobId, expiresAt: Option<nat>, now: nat) returns (outcome: B.Outcome)
      modifies this
      ensures outcome == B.Respond(old(jobs), B.CreateJob(recruiter, newId, expiresAt))
      ensures jobs == B.Next(old(jobs), B.CreateJob(recruiter, newId, expiresAt), now)
      ensures outcome == if newId in old(jobs) then B.DuplicateKey else B.Done
      ensures jobs == if outcome.Done? then old(jobs)[newId := B.Job(recruiter, B.OPEN, expiresAt, None)] else old(jobs)
      ensures outcome.Done? ==> (newId in B.Search(jobs, now) <==> expiresAt == None || now < expiresAt.value)
    {
      var job := new Job(B.Job(recruiter, B.DRAFT, expiresAt, None));
      var ok := job.Open();
      if newId in jobs {
        return B.DuplicateKey;
      }
      jobs := jobs[newId := job.Row()];
      return B.Done;
    }

    ghost predicate IsThere(id: B.JobId)
      reads this
    {
      id in jobs && jobs[id].deletedAt == None
    }

    ghost predicate IsOwn(recruiter: B.UserId, id: B.JobId)
      reads this
    {
      IsThere(id) && jobs[id].poster == recruiter
    }

    /** The lookup and ownership check the recruiter's commands share. */
    method Load(recruiter: B.UserId, id: B.JobId) returns (outcome: B.Outcome, job: Job?)
      ensures outcome.Done? <==> IsOwn(recruiter, id)
      ensures outcome in {B.Done, B.JobNotFound, B.NotOwner}
      ensures outcome.JobNotFound? <==> !IsThere(id)
      ensures outcome.Done? ==> job != null && fresh(job) && job.Row() == jobs[id]
    {
      if id !in jobs || jobs[id].deletedAt.Some? {
        return B.JobNotFound, null;
      }
      job := new Job(jobs[id]);
      outcome := if job.poster == recruiter then B.Done else B.NotOwner;
    }

    /** `CloseJobHandler`: afterwards the job is in no search and welcomes nobody. */
    method CloseJob(recruiter: B.UserId, id: B.JobId, now: nat) returns (outcome: B.Outcome)
      modifies this
      ensures outcome == B.Respond(old(jobs), B.CloseJob(recruiter, id))
      ensures jobs == B.Next(old(jobs), B.CloseJob(recruiter, id), now)
      ensures outcome == if !old(IsThere(id)) then B.JobNotFound
                         else if !old(IsOwn(recruiter, id)) then B.NotOwner
                         else if old(jobs)[id].status == B.CLOSED then B.AlreadyClosed
                         else B.Done
      ensures jobs == if outcome.Done? then old(jobs)[id := old(jobs)[id].(status := B.CLOSED)] else old(jobs)
      ensures outcome.Done? ==> forall at :: id !in B.Search(jobs, at) && B.Receive(jobs, id, at, at) == B.NotAccepting
    {
      var job;
      outcome, job := Load(recruiter, id);
      if outcome.Done? {
        var ok := job.Close();
        if !ok {
          return B.AlreadyClosed;
        }
        jobs := jobs[id := job.Row()];
      }
    }

    /** `ReopenJobHandler`: the job is shown again as long as its old expiry lies ahead. */
    method ReopenJob(recruiter: B.UserId, id: B.JobId, now: nat) returns (outcome: B.Outcome)
      modifies this
      ensures outcome == B.Respond(old(jobs), B.ReopenJob(recruiter, id))
      ensures jobs == B.Next(old(jobs), B.ReopenJob(recruiter, id), now)
      ensures outcome == if !old(IsThere(id)) then B.JobNotFound
                         else if !old(IsOwn(recruiter, id)) then B.NotOwner
                         else if old(jobs)[id].status != B.CLOSED then B.NotClosed
                         else B.Done
      ensures jobs == if outcome.Done? then old(jobs)[id := old(jobs)[id].(status := B.OPEN)] else old(jobs)
      ensures outcome.Done? ==>
        (id in B.Search(jobs, now) <==> (old(jobs)[id].expiresAt.Some? ==> now < old(jobs)[id].expiresAt.value))
    {
      var job;
      outcome, job := Load(recruiter, id);
      if outcome.Done? {
        var ok := job.Reopen();
        if !ok {
          return B.NotClosed;
        }
        jobs := jobs[id := job.Row()];
      }
    }

    /** `UpdateJobHandler`, as far as the expiry: it changes no status, so it shows no closed job. */
    method UpdateJob(recruiter: B.UserId, id: B.JobId, expiresAt: Option<nat>, now: nat) returns (outcome: B.Outcome)
      modifies this
      ensures outcome == B.Respond(old(jobs), B.UpdateJob(recruiter, id, expiresAt))
      ensures jobs == B.Next(old(jobs), B.UpdateJob(recruiter, id, expiresAt), now)
      ensures outcome == if !old(IsThere(id)) then B.JobNotFound
                         else if !old(IsOwn(recruiter, id)) then B.NotOwner
                         else B.Done
      ensures jobs == if outcome.Done? && expiresAt != None then old(jobs)[id := old(jobs)[id].(expiresAt := expiresAt)]
                      else old(jobs)
      ensures outcome.Done? && old(jobs)[id].status == B.CLOSED ==> forall at :: id !in B.Search(jobs, at)
    {
      var job;
      outcome, job := Load(recruiter, id);
      if outcome.Done? {
        job.UpdateDetails(expiresAt);
        jobs := jobs[id := job.Row()];
        assert jobs == B.Next(old(jobs), B.UpdateJob(recruiter, id, expiresAt), now);
      }
    }

    /** `DeleteJobHandler`: afterwards no lookup finds the job. */
    method DeleteJob(recruiter: B.UserId, id: B.JobId, now: nat) returns (outcome: B.Outcome)
      modifies this
      ensures outcome == B.Respond(old(jobs), B.DeleteJob(recruiter, id))
      ensures jobs == B.Next(old(jobs), B.DeleteJob(recruiter, id), now)
      ensures outcome == if !old(IsThere(id)) then B.JobNotFound
                         else if !old(IsOwn(recruiter, id)) then B.NotOwner
                         else B.Done
      ensures jobs == if outcome.Done?
                      then old(jobs)[id := old(jobs)[id].(status := B.CLOSED, deletedAt := Some(now))]
                      else old(jobs)
      ensures outcome.Done? ==> forall at :: B.Receive(jobs, id, at, at) == B.NotFound
    {
      var job;
      outcome, job := Load(recruiter, id);
      if outcome.Done? {
        var ok := job.SoftDelete(now);
        if ok {
          jobs := jobs[id := job.Row()];
        }
      }
    }

    /** Open, not deleted, and past its expiry. */
    static ghost predicate Overdue(j: B.Job, now: nat) {
      j.status == B.OPEN && j.deletedAt == None && j.expiresAt.Some? && j.expiresAt.value < now
    }

    /** `CloseExpiredJobsHandler`: no `close()` in the loop throws, because only open jobs are listed and no
        job is listed twice. An update the database rejects does, and ends the loop: the jobs before it are
        closed, that one and those after it are as they were. When none is rejected no overdue job is left. */
    method CloseExpiredJobs(now: nat, expired: seq<B.JobId>, rejected: set<B.JobId>) returns (closed: nat)
      requires forall id :: id in expired <==> id in jobs && B.ExpiredOpen(jobs[id], now)
      requires forall i, j :: 0 <= i < j < |expired| ==> expired[i] != expired[j]
      modifies this
      ensures closed <= |expired| && (forall i :: 0 <= i < closed ==> expired[i] !in rejected)
      ensures closed < |expired| ==> expired[closed] in rejected
      ensures jobs == B.Next(old(jobs), B.CloseExpiredJobs(set id | id in expired[..closed]), now)
      ensures jobs.Keys == old(jobs).Keys
      ensures forall id :: id in jobs ==>
                jobs[id] == if id in expired[..closed] then old(jobs)[id].(status := B.CLOSED) else old(jobs)[id]
      ensures forall id :: id in expired[..closed] ==> Overdue(old(jobs)[id], now)
      ensures rejected == {} ==> forall id :: id in jobs ==> !Overdue(jobs[id], now)
    {
      closed := 0;
      while closed < |expired|
        invariant 0 <= closed <= |expired| && jobs.Keys == old(jobs).Keys
        invariant forall i :: 0 <= i < closed ==> expired[i] !in rejected
        invariant forall id :: id in jobs ==>
                    jobs[id] == if id in expired[..closed] then old(jobs)[id].(status := B.CLOSED) else old(jobs)[id]
      {
        var id := expired[closed];
        assert id in expired && id !in expired[..closed];
        var job := new Job(jobs[id]);
        var ok := job.Close();
        assert ok;
        if id in rejected {
          break;
        }
        assert expired[..closed + 1] == expired[..closed] + [id];
        jobs := jobs[id := job.Row()];
        closed := closed + 1;
      }
      B.ClosedSoFar(old(jobs), jobs, expired, closed, now);
      assert closed == |expired| ==> expired[..closed] == expired;
      assert forall id :: id in expired[..closed] ==> id in expired;
    }
  }
}
