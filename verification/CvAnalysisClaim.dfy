// Claiming CVs for analysis: which CVs a cron tick takes, and how long a claim protects them.

module AnalysisClaims {
  import opened Wrappers
  import opened FiniteSets

  type CvId = nat

  /** A CV row as claims see it. Ids are never reused, so a purged CV keeps its entry. */
  datatype CvRow = Live(createdAt: nat) | SoftDeleted | Purged

  datatype AnalysisStatus = PENDING | COMPLETED | FAILED

  datatype Analysis = Analysis(status: AnalysisStatus, startedAt: Option<nat>)

  datatype Tables = Tables(cvs: map<CvId, CvRow>, analyses: map<CvId, Analysis>)

  predicate IsLive(t: Tables, cv: CvId) {
    cv in t.cvs && t.cvs[cv].Live?
  }

  /** The query's filter: no analysis yet, or an unfinished one that is unclaimed or whose claim is
      stale. */
  predicate Eligible(t: Tables, cv: CvId, asked: nat, staleAfter: nat) {
    && IsLive(t, cv)
    && (cv in t.analyses ==>
          && t.analyses[cv].status != COMPLETED
          && (t.analyses[cv].startedAt.None? || t.analyses[cv].startedAt.value < asked as int - staleAfter))
  }

  function AllEligible(t: Tables, asked: nat, staleAfter: nat): set<CvId> {
    set cv | cv in t.cvs && Eligible(t, cv, asked, staleAfter)
  }

  function CreatedAt(t: Tables, cv: CvId): nat {
    if IsLive(t, cv) then t.cvs[cv].createdAt else 0
  }

  /** `take: limit, orderBy: { createdAt: 'asc' }` over the eligible CVs; ties in any order. */
  ghost predicate IsBatch(t: Tables, asked: nat, staleAfter: nat, limit: nat, ids: seq<CvId>) {
    var all := AllEligible(t, asked, staleAfter);
    && |ids| == (if |all| < limit then |all| else limit)
    && (forall i :: 0 <= i < |ids| ==> ids[i] in all)
    && (forall i, j :: 0 <= i < j < |ids| ==> ids[i] != ids[j] && CreatedAt(t, ids[i]) <= CreatedAt(t, ids[j]))
    && (forall i, cv :: 0 <= i < |ids| && cv in all && cv !in ids ==> CreatedAt(t, ids[i]) <= CreatedAt(t, cv))
  }

  /** A claimed CV without an analysis gets one, PENDING; one with an analysis keeps its status. */
  function Stamped(t: Tables, cv: CvId, at: nat): Analysis {
    Analysis(if cv in t.analyses then t.analyses[cv].status else PENDING, Some(at))
  }

  function Stamp(t: Tables, ids: seq<CvId>, at: nat): Tables {
    t.(analyses := map cv | cv in t.analyses.Keys + (set c | c in ids) ::
         if cv in ids then Stamped(t, cv, at) else t.analyses[cv])
  }

  /** One atomic step of the system. A save is any analysis ending in a stored result, whoever ran it and
      whenever it began; an analysis that stores nothing is no step at all. */
  datatype Event =
    | Upload(cv: CvId, createdAt: nat)
    | SoftDelete(cv: CvId)
    | Purge(cv: CvId)
    | Claim(asked: nat, stamped: nat, staleAfter: nat, limit: nat, ids: seq<CvId>)
    | Save(cv: CvId, status: AnalysisStatus)

  ghost predicate Possible(t: Tables, e: Event) {
    match e
    case Upload(cv, _) => cv !in t.cvs
    case SoftDelete(cv) => IsLive(t, cv)
    case Purge(cv) => cv in t.cvs && t.cvs[cv].SoftDeleted?
    case Claim(asked, stamped, staleAfter, limit, ids) => asked <= stamped && IsBatch(t, asked, staleAfter, limit, ids)
    case Save(cv, status) => cv in t.cvs && !t.cvs[cv].Purged? && status != PENDING
  }

  function Next(t: Tables, e: Event): Tables {
    match e
    case Upload(cv, createdAt) => t.(cvs := t.cvs[cv := Live(createdAt)])
    case SoftDelete(cv) => t.(cvs := t.cvs[cv := SoftDeleted])
    case Purge(cv) => Tables(t.cvs[cv := Purged], t.analyses - {cv})
    case Claim(_, stamped, _, _, ids) => Stamp(t, ids, stamped)
    case Save(cv, status) => t.(analyses := t.analyses[cv := Analysis(status, None)])
  }

  function After(t: Tables, run: seq<Event>): Tables {
    if run == [] then t else Next(After(t, run[..|run| - 1]), run[|run| - 1])
  }

  ghost predicate PossibleRun(t: Tables, run: seq<Event>) {
    run != [] ==> PossibleRun(t, run[..|run| - 1]) && Possible(After(t, run[..|run| - 1]), run[|run| - 1])
  }

  predicate Claims(e: Event, cv: CvId) {
    e.Claim? && cv in e.ids
  }

  predicate Touches(e: Event, cv: CvId) {
    match e
    case Claim(_, _, _, _, ids) => cv in ids
    case _ => e.cv == cv
  }

  // ---- What one claim takes ----

  lemma {:induction false} DistinctCount(ids: seq<CvId>, s: set<CvId>)
    requires forall i, j :: 0 <= i < j < |ids| ==> ids[i] != ids[j]
    requires forall i :: 0 <= i < |ids| ==> ids[i] in s
    ensures |ids| <= |s|
    decreases |ids|
  {
    if ids != [] {
      var last := ids[|ids| - 1];
      DistinctCount(ids[..|ids| - 1], s - {last});
    }
  }

  lemma {:induction false} CountedByPositions(s: set<CvId>, ids: seq<CvId>)
    requires forall cv :: cv in s ==> cv in ids
    ensures |s| <= |ids|
    decreases |ids|
  {
    if ids == [] {
      assert s == {};
    } else {
      var last := ids[|ids| - 1];
      CountedByPositions(s - {last}, ids[..|ids| - 1]);
    }
  }

  function OlderEligible(t: Tables, cv: CvId, asked: nat, staleAfter: nat): set<CvId> {
    set c | c in t.cvs && Eligible(t, c, asked, staleAfter) && CreatedAt(t, c) < CreatedAt(t, cv)
  }

  /** The other eligible CVs that are not younger: the older ones and those of the same age. */
  function NotYounger(t: Tables, cv: CvId, asked: nat, staleAfter: nat): set<CvId> {
    set c | c in t.cvs && Eligible(t, c, asked, staleAfter) && c != cv && CreatedAt(t, c) <= CreatedAt(t, cv)
  }

  lemma OlderComeFirst(t: Tables, asked: nat, staleAfter: nat, limit: nat, ids: seq<CvId>, k: nat)
    requires IsBatch(t, asked, staleAfter, limit, ids) && k < |ids|
    ensures |OlderEligible(t, ids[k], asked, staleAfter)| <= k
  {
    var older := OlderEligible(t, ids[k], asked, staleAfter);
    forall cv | cv in older ensures cv in ids[..k] {
      assert cv in AllEligible(t, asked, staleAfter);
      assert cv in ids;
      var i :| 0 <= i < |ids| && ids[i] == cv;
      assert i < k;
      assert ids[..k][i] == cv;
    }
    CountedByPositions(older, ids[..k]);
  }

  lemma LeftOutMeansFull(t: Tables, asked: nat, staleAfter: nat, limit: nat, ids: seq<CvId>, cv: CvId)
    requires IsBatch(t, asked, staleAfter, limit, ids)
    requires Eligible(t, cv, asked, staleAfter) && cv !in ids
    ensures limit <= |NotYounger(t, cv, asked, staleAfter)|
  {
    var all := AllEligible(t, asked, staleAfter);
    DistinctCount(ids, all - {cv});
    forall i | 0 <= i < |ids| ensures ids[i] in NotYounger(t, cv, asked, staleAfter) {
      assert ids[i] in all && ids[i] != cv;
    }
    DistinctCount(ids, NotYounger(t, cv, asked, staleAfter));
  }

  /** An eligible CV is claimed whenever fewer than `limit` others are not younger, and only if fewer than
      `limit` are older; which of several CVs of one age are taken the query leaves open. When no other has
      its age the two conditions are one. */
  lemma ClaimedIffRoom(t: Tables, asked: nat, staleAfter: nat, limit: nat, ids: seq<CvId>, cv: CvId)
    requires IsBatch(t, asked, staleAfter, limit, ids) && Eligible(t, cv, asked, staleAfter)
    ensures |NotYounger(t, cv, asked, staleAfter)| < limit ==> cv in ids
    ensures cv in ids ==> |OlderEligible(t, cv, asked, staleAfter)| < limit
    ensures NotYounger(t, cv, asked, staleAfter) == OlderEligible(t, cv, asked, staleAfter)
            ==> (cv in ids <==> |OlderEligible(t, cv, asked, staleAfter)| < limit)
  {
    if cv in ids {
      var k :| 0 <= k < |ids| && ids[k] == cv;
      OlderComeFirst(t, asked, staleAfter, limit, ids, k);
    } else {
      LeftOutMeansFull(t, asked, staleAfter, limit, ids, cv);
    }
  }

  lemma OldestExist(t: Tables, all: set<CvId>) returns (m: CvId)
    requires all != {}
    ensures m in all && forall cv :: cv in all ==> CreatedAt(t, m) <= CreatedAt(t, cv)
    decreases |all|
  {
    m :| m in all;
    if all - {m} != {} {
      var other := OldestExist(t, all - {m});
      if CreatedAt(t, other) < CreatedAt(t, m) {
        m := other;
      }
    }
  }

  lemma OldestOf(t: Tables, all: set<CvId>, limit: nat) returns (ids: seq<CvId>)
    ensures |ids| == if |all| < limit then |all| else limit
    ensures forall i :: 0 <= i < |ids| ==> ids[i] in all
    ensures forall i, j :: 0 <= i < j < |ids| ==> ids[i] != ids[j] && CreatedAt(t, ids[i]) <= CreatedAt(t, ids[j])
    ensures forall i, cv :: 0 <= i < |ids| && cv in all && cv !in ids ==> CreatedAt(t, ids[i]) <= CreatedAt(t, cv)
    decreases limit
  {
    if limit == 0 || all == {} {
      ids := [];
    } else {
      var m := OldestExist(t, all);
      var rest := OldestOf(t, all - {m}, limit - 1);
      ids := [m] + rest;
    }
  }

  /** Whatever the tables hold, the query has an answer: a claim is always possible. */
  lemma EveryTickCanClaim(t: Tables, asked: nat, stamped: nat, staleAfter: nat, limit: nat)
    requires asked <= stamped
    ensures exists ids :: Possible(t, Claim(asked, stamped, staleAfter, limit, ids))
  {
    var ids := OldestOf(t, AllEligible(t, asked, staleAfter), limit);
    assert IsBatch(t, asked, staleAfter, limit, ids);
    assert Possible(t, Claim(asked, stamped, staleAfter, limit, ids));
  }

  /** A live CV that has no analysis yet, or one that has failed or never been finished and carries no claim, is
      in every batch that is not full. */
  lemma WaitingIsInEveryShortBatch(t: Tables, asked: nat, staleAfter: nat, limit: nat, ids: seq<CvId>, cv: CvId)
    requires IsBatch(t, asked, staleAfter, limit, ids) && |ids| < limit
    requires cv in t.cvs && t.cvs[cv].Live?
    requires cv in t.analyses ==> t.analyses[cv] in {Analysis(PENDING, None), Analysis(FAILED, None)}
    ensures cv in ids
  {
    var all := AllEligible(t, asked, staleAfter);
    if cv !in ids {
      assert cv in all;
      DistinctCount(ids, all - {cv});
    }
  }

  /** A claim stamps exactly the CVs it returns, touches no other analysis and completes none. */
  lemma ClaimStampsExactlyItsBatch(t: Tables, e: Event, cv: CvId)
    requires e.Claim? && Possible(t, e)
    ensures cv in e.ids ==> cv in Next(t, e).analyses && Next(t, e).analyses[cv].startedAt == Some(e.stamped)
                            && Next(t, e).analyses[cv].status != COMPLETED
    ensures cv !in e.ids && cv in t.analyses ==> cv in Next(t, e).analyses && Next(t, e).analyses[cv] == t.analyses[cv]
    ensures cv !in e.ids && cv !in t.analyses ==> cv !in Next(t, e).analyses
  {
    if cv in e.ids {
      assert cv in AllEligible(t, e.asked, e.staleAfter);
    }
  }

  // ---- How long a claim holds ----

  /** The CV can only be taken by a claim that asks later than `since`: it is gone, it is completed, or it
      carries a stamp no earlier than `since`. */
  predicate Held(t: Tables, cv: CvId, since: nat) {
    IsLive(t, cv) ==>
      && cv in t.analyses
      && (t.analyses[cv].status == COMPLETED
          || (t.analyses[cv].startedAt.Some? && since <= t.analyses[cv].startedAt.value))
  }

  lemma HoldsUntilAFailureIsSaved(t: Tables, e: Event, cv: CvId, since: nat)
    requires cv in t.cvs && Held(t, cv, since) && Possible(t, e) && e != Save(cv, FAILED)
    ensures cv in Next(t, e).cvs && Held(Next(t, e), cv, since)
  {
    if e.Claim? {
      ClaimStampsExactlyItsBatch(t, e, cv);
      if cv in e.ids {
        assert cv in AllEligible(t, e.asked, e.staleAfter);
      }
    }
  }

  lemma {:induction false} HoldsThroughout(t: Tables, run: seq<Event>, cv: CvId, since: nat)
    requires cv in t.cvs && Held(t, cv, since) && PossibleRun(t, run) && Save(cv, FAILED) !in run
    ensures cv in After(t, run).cvs && Held(After(t, run), cv, since)
    decreases |run|
  {
    if run != [] {
      HoldsThroughout(t, run[..|run| - 1], cv, since);
      HoldsUntilAFailureIsSaved(After(t, run[..|run| - 1]), run[|run| - 1], cv, since);
    }
  }

  /** Over every run: a CV claimed once and claimed again later either had a FAILED result saved in between,
      or its first claim was older than the staleness threshold when the second asked. */
  lemma ReclaimedOnlyAfterFailureOrStaleness(t: Tables, first: Event, between: seq<Event>, second: Event, cv: CvId)
    requires Possible(t, first) && PossibleRun(Next(t, first), between)
    requires Possible(After(Next(t, first), between), second)
    requires Claims(first, cv) && Claims(second, cv)
    ensures Save(cv, FAILED) in between || first.stamped < second.asked as int - second.staleAfter
  {
    var t1 := Next(t, first);
    ClaimStampsExactlyItsBatch(t, first, cv);
    assert cv in AllEligible(t, first.asked, first.staleAfter);
    var t2 := After(t1, between);
    assert cv in AllEligible(t2, second.asked, second.staleAfter);
    if Save(cv, FAILED) !in between {
      HoldsThroughout(t1, between, cv, first.stamped);
    }
  }

  lemma CompletedStaysStep(t: Tables, e: Event, cv: CvId)
    requires cv in t.analyses && t.analyses[cv].status == COMPLETED && Possible(t, e)
    requires e != Save(cv, FAILED) && e != Purge(cv)
    ensures !Claims(e, cv)
    ensures cv in Next(t, e).analyses && Next(t, e).analyses[cv].status == COMPLETED
  {
    if e.Claim? {
      assert cv !in AllEligible(t, e.asked, e.staleAfter);
      ClaimStampsExactlyItsBatch(t, e, cv);
    }
  }

  /** A completed analysis is never claimed, and stays completed unless a FAILED result of an analysis that
      was still in flight is saved over it. */
  lemma {:induction false} CompletedIsNeverClaimed(t: Tables, run: seq<Event>, cv: CvId)
    requires cv in t.analyses && t.analyses[cv].status == COMPLETED && PossibleRun(t, run)
    requires Save(cv, FAILED) !in run && Purge(cv) !in run
    ensures cv in After(t, run).analyses && After(t, run).analyses[cv].status == COMPLETED
    ensures forall i :: 0 <= i < |run| ==> !Claims(run[i], cv)
    decreases |run|
  {
    if run != [] {
      CompletedIsNeverClaimed(t, run[..|run| - 1], cv);
      CompletedStaysStep(After(t, run[..|run| - 1]), run[|run| - 1], cv);
      assert forall i :: 0 <= i < |run| - 1 ==> run[i] == run[..|run| - 1][i];
    }
  }

  lemma {:induction false} UntouchedStays(t: Tables, run: seq<Event>, cv: CvId)
    requires PossibleRun(t, run) && IsLive(t, cv)
    requires forall i :: 0 <= i < |run| ==> !Touches(run[i], cv)
    ensures IsLive(After(t, run), cv)
    ensures cv in After(t, run).analyses <==> cv in t.analyses
    ensures cv in t.analyses ==> After(t, run).analyses[cv] == t.analyses[cv]
    decreases |run|
  {
    if run != [] {
      var before, e := After(t, run[..|run| - 1]), run[|run| - 1];
      assert forall i :: 0 <= i < |run| - 1 ==> run[i] == run[..|run| - 1][i];
      UntouchedStays(t, run[..|run| - 1], cv);
      if e.Claim? {
        ClaimStampsExactlyItsBatch(before, e, cv);
      }
    }
  }

  /** Over every run an uploaded CV is taken by the first claim with room to spare, and ends it with a PENDING
      analysis stamped by it: nothing that happens to other CVs can keep a new one from being analysed. */
  lemma NewCvIsClaimed(t: Tables, upload: Event, between: seq<Event>, claim: Event)
    requires upload.Upload? && upload.cv !in t.analyses && Possible(t, upload)
    requires PossibleRun(Next(t, upload), between)
    requires forall i :: 0 <= i < |between| ==> !Touches(between[i], upload.cv)
    requires claim.Claim? && |claim.ids| < claim.limit && Possible(After(Next(t, upload), between), claim)
    ensures upload.cv in claim.ids
    ensures var after := Next(After(Next(t, upload), between), claim);
      upload.cv in after.analyses && after.analyses[upload.cv] == Analysis(PENDING, Some(claim.stamped))
  {
    var before := After(Next(t, upload), between);
    UntouchedStays(Next(t, upload), between, upload.cv);
    WaitingIsInEveryShortBatch(before, claim.asked, claim.staleAfter, claim.limit, claim.ids, upload.cv);
  }

  /** An unfinished claim protects its CV until, and only until, the threshold has passed: whatever else
      happens, the CV is up for claiming again exactly when the next claim asks more than `staleAfter`
      after the stamp. */
  lemma ClaimProtectsUntilStale(t: Tables, first: Event, between: seq<Event>, cv: CvId, asked: nat, staleAfter: nat)
    requires Possible(t, first) && Claims(first, cv)
    requires PossibleRun(Next(t, first), between)
    requires forall i :: 0 <= i < |between| ==> !Touches(between[i], cv)
    ensures Eligible(After(Next(t, first), between), cv, asked, staleAfter)
            <==> first.stamped < asked as int - staleAfter
  {
    ClaimStampsExactlyItsBatch(t, first, cv);
    assert cv in AllEligible(t, first.asked, first.staleAfter);
    UntouchedStays(Next(t, first), between, cv);
  }

  /** CronExpression.EVERY_10_MINUTES and the default of AI_ANALYSIS_CLAIM_STALE_MINUTES. */
  const TICK := 10 * 60_000
  const DEFAULT_STALE_AFTER := 5 * 60_000

  /** With the default threshold the claim never survives to the next tick: an analysis still in flight
      when the cron runs again is up for claiming a second time. A threshold of one tick or more would
      prevent it. */
  lemma DefaultClaimNeverCoversATick(t: Tables, first: Event, between: seq<Event>, cv: CvId, asked: nat)
    requires Possible(t, first) && Claims(first, cv)
    requires PossibleRun(Next(t, first), between)
    requires forall i :: 0 <= i < |between| ==> !Touches(between[i], cv)
    requires first.stamped < first.asked + 300_000 && asked == first.asked + 600_000
    ensures Eligible(After(Next(t, first), between), cv, asked, DEFAULT_STALE_AFTER)
    ensures forall staleAfter :: staleAfter >= 600_000
              ==> !Eligible(After(Next(t, first), between), cv, asked, staleAfter)
  {
    ClaimProtectsUntilStale(t, first, between, cv, asked, DEFAULT_STALE_AFTER);
    forall staleAfter | staleAfter >= TICK
      ensures !Eligible(After(Next(t, first), between), cv, asked, staleAfter)
    {
      ClaimProtectsUntilStale(t, first, between, cv, asked, staleAfter);
    }
  }

  // ---- Fairness ----

  /** `failing` holds at least `limit` live CVs older than `cv`, all FAILED and unclaimed. */
  ghost predicate Crowded(t: Tables, cv: CvId, failing: set<CvId>, limit: nat) {
    && |failing| >= limit
    && forall c :: c in failing ==>
         && IsLive(t, c) && CreatedAt(t, c) < CreatedAt(t, cv)
         && c in t.analyses && t.analyses[c] == Analysis(FAILED, None)
  }

  function SaveAll(t: Tables, ids: seq<CvId>): Tables {
    if ids == [] then t else Next(SaveAll(t, ids[..|ids| - 1]), Save(ids[|ids| - 1], FAILED))
  }

  lemma {:induction false} SavedAll(t: Tables, ids: seq<CvId>)
    ensures SaveAll(t, ids).cvs == t.cvs
    ensures SaveAll(t, ids).analyses.Keys == t.analyses.Keys + (set c | c in ids)
    ensures forall c :: c in ids ==> SaveAll(t, ids).analyses[c] == Analysis(FAILED, None)
    ensures forall c :: c in t.analyses && c !in ids ==> SaveAll(t, ids).analyses[c] == t.analyses[c]
    decreases |ids|
  {
    if ids != [] {
      SavedAll(t, ids[..|ids| - 1]);
    }
  }

  lemma TickStarves(t: Tables, tick: Event, cv: CvId, failing: set<CvId>)
    requires tick.Claim? && Possible(t, tick) && Crowded(t, cv, failing, tick.limit)
    ensures cv !in tick.ids
    ensures Crowded(SaveAll(Next(t, tick), tick.ids), cv, failing, tick.limit)
  {
    assert cv !in tick.ids by {
      var older := OlderEligible(t, cv, tick.asked, tick.staleAfter);
      assert failing <= older;
      SubsetIsNoLarger(failing, older);
      if Eligible(t, cv, tick.asked, tick.staleAfter) {
        ClaimedIffRoom(t, tick.asked, tick.staleAfter, tick.limit, tick.ids, cv);
      } else {
        assert cv !in AllEligible(t, tick.asked, tick.staleAfter);
      }
    }
    SavedAll(Next(t, tick), tick.ids);
    forall c | c in failing
      ensures c in SaveAll(Next(t, tick), tick.ids).analyses
      ensures SaveAll(Next(t, tick), tick.ids).analyses[c] == Analysis(FAILED, None)
    {
      ClaimStampsExactlyItsBatch(t, tick, c);
    }
  }

  /** Ticks of one batch size, each possible after the one before it and followed by a FAILED save of every CV
      it claimed. */
  ghost predicate FailingTicks(t: Tables, ticks: seq<Event>, limit: nat)
    decreases |ticks|
  {
    ticks != [] ==>
      && ticks[0].Claim? && ticks[0].limit == limit && Possible(t, ticks[0])
      && FailingTicks(SaveAll(Next(t, ticks[0]), ticks[0].ids), ticks[1..], limit)
  }

  /** Oldest first starves: once `limit` older CVs keep failing, a younger one is claimed by no tick of any
      number of ticks. */
  lemma {:induction false} FailingCvsStarveYoungerOnes(t: Tables, ticks: seq<Event>, cv: CvId, failing: set<CvId>,
                                                       limit: nat)
    requires FailingTicks(t, ticks, limit) && Crowded(t, cv, failing, limit)
    ensures forall i :: 0 <= i < |ticks| ==> !Claims(ticks[i], cv)
    decreases |ticks|
  {
    if ticks != [] {
      TickStarves(t, ticks[0], cv, failing);
      FailingCvsStarveYoungerOnes(SaveAll(Next(t, ticks[0]), ticks[0].ids), ticks[1..], cv, failing, limit);
      assert forall i :: 0 < i < |ticks| ==> ticks[i] == ticks[1..][i - 1];
    }
  }
}

/** Skill names as stored and searched. `fold` is the trimming and lower-casing. */
module Skills {

  function Normalized(skills: seq<string>, fold: string -> string): (r: seq<string>)
    ensures forall i, j :: 0 <= i < j < |r| ==> r[i] != r[j]
    ensures forall s :: s in r <==> s != "" && exists i :: 0 <= i < |skills| && fold(skills[i]) == s
  {
    if skills == [] then []
    else
      var init, s := Normalized(skills[..|skills| - 1], fold), fold(skills[|skills| - 1]);
      assert forall i :: 0 <= i < |skills| - 1 ==> skills[..|skills| - 1][i] == skills[i];
      if s == "" || s in init then init else init + [s]
  }

  /** Normalising stored skills again changes nothing, so entity and search filter agree. */
  lemma {:induction false} NormalizedTwice(skills: seq<string>, fold: string -> string)
    requires forall s :: fold(fold(s)) == fold(s)
    ensures Normalized(Normalized(skills, fold), fold) == Normalized(skills, fold)
  {
    var once := Normalized(skills, fold);
    forall i | 0 <= i < |once| ensures once[i] != "" && fold(once[i]) == once[i] {
      assert once[i] in once;
      var k :| 0 <= k < |skills| && fold(skills[k]) == once[i];
      assert fold(fold(skills[k])) == fold(skills[k]);
    }
    NormalIsFixed(once, fold);
  }

  /** Skills keep the order they are first named in: what follows only adds at the end. */
  lemma {:induction false} NormalizedKeepsOrder(skills: seq<string>, n: nat, fold: string -> string)
    requires n <= |skills|
    ensures Normalized(skills[..n], fold) <= Normalized(skills, fold)
    decreases |skills|
  {
    if n == |skills| {
      assert skills[..n] == skills;
    } else {
      NormalizedKeepsOrder(skills[..|skills| - 1], n, fold);
      assert skills[..|skills| - 1][..n] == skills[..n];
    }
  }

  lemma {:induction false} NormalIsFixed(s: seq<string>, fold: string -> string)
    requires forall i, j :: 0 <= i < j < |s| ==> s[i] != s[j]
    requires forall i :: 0 <= i < |s| ==> s[i] != "" && fold(s[i]) == s[i]
    ensures Normalized(s, fold) == s
  {
    if s != [] {
      NormalIsFixed(s[..|s| - 1], fold);
    }
  }
}

/** The claim query's writes, the analysis service and the cron, on tables and an entity updated in place. */
module CvAnalysisService {
  import opened Wrappers
  import A = AnalysisClaims
  import Skills

  /** What the model extracts from a CV, with the text it read and its own name. */
  datatype Findings = Findings(summary: string, skills: seq<string>, experienceYears: Option<real>,
                               education: seq<string>, extractedText: string, model: string)

  function Normal(found: Findings, fold: string -> string): Findings {
    found.(skills := Skills.Normalized(found.skills, fold))
  }

  class CvAnalysis {
    const cvId: A.CvId
    var status: A.AnalysisStatus
    var startedAt: Option<nat>
    var findings: Option<Findings>
    var analyzedAt: Option<nat>
    var failureReason: Option<string>

    constructor (id: A.CvId, row: Option<A.Analysis>, found: Option<Findings>)
      ensures cvId == id && Row() == if row.Some? then row.value else A.Analysis(A.PENDING, None)
      ensures findings == found
    {
      cvId := id;
      status := if row.Some? then row.value.status else A.PENDING;
      startedAt := if row.Some? then row.value.startedAt else None;
      findings, analyzedAt, failureReason := found, None, None;
    }

    function Row(): A.Analysis
      reads this
    {
      A.Analysis(status, startedAt)
    }

    method MarkCompleted(found: Findings, fold: string -> string, now: nat)
      modifies this
      ensures Row() == A.Analysis(A.COMPLETED, None) && failureReason == None && analyzedAt == Some(now)
      ensures findings == Some(found.(skills := Skills.Normalized(found.skills, fold)))
    {
      status, startedAt, failureReason, analyzedAt := A.COMPLETED, None, None, Some(now);
      findings := Some(Normal(found, fold));
    }

    /** Keeps whatever an earlier success found. */
    method MarkFailed(reason: string, now: nat)
      modifies this
      ensures Row() == A.Analysis(A.FAILED, None) && failureReason == Some(reason) && analyzedAt == Some(now)
      ensures findings == old(findings)
    {
      status, startedAt, failureReason, analyzedAt := A.FAILED, None, Some(reason), Some(now);
    }
  }

  /** How the database reads, the foreign calls and the saves of one analysis go. `found` is None when the
      file cannot be downloaded, read or understood. */
  datatype Attempt = Attempt(firstReadWorks: bool, fileReadWorks: bool, found: Option<Findings>, error: string,
                             firstSaveWorks: bool, lastSaveWorks: bool)

  /** An analysis either throws or ends with one result stored, or none. */
  datatype Ending = Threw | Ended(saved: Option<A.AnalysisStatus>)

  /** What one analysis that does not throw leaves of its CV's row: COMPLETED if everything it needs works and
      the CV is live; what was there if the CV is not there to be read, or the last save fails, or the foreign key
      refuses it because the CV is gone for good; FAILED otherwise. */
  ghost predicate Settled(cv: A.CvId, a: Attempt, cvs: map<A.CvId, A.CvRow>,
                          before: map<A.CvId, A.Analysis>, after: map<A.CvId, A.Analysis>)
  {
    var live := cv in cvs && cvs[cv].Live?;
    if live && a.fileReadWorks && a.found.Some? && a.firstSaveWorks then
      cv in after && after[cv] == A.Analysis(A.COMPLETED, None)
    else if (a.fileReadWorks && !live) || !a.lastSaveWorks || cv !in cvs || cvs[cv].Purged? then
      SameRow(cv, before, after)
    else
      cv in after && after[cv] == A.Analysis(A.FAILED, None)
  }

  predicate SameRow(cv: A.CvId, before: map<A.CvId, A.Analysis>, after: map<A.CvId, A.Analysis>) {
    (cv in before <==> cv in after) && (cv in before ==> before[cv] == after[cv])
  }

  /** A live CV that has no analysis, or an unfinished one nobody has claimed since `staleAfter` ago. */
  ghost predicate Waiting(cvs: map<A.CvId, A.CvRow>, analyses: map<A.CvId, A.Analysis>, cv: A.CvId,
                          asked: nat, staleAfter: nat)
  {
    && cv in cvs && cvs[cv].Live?
    && (|| cv !in analyses
        || (analyses[cv].status in {A.PENDING, A.FAILED}
            && (analyses[cv].startedAt == None || analyses[cv].startedAt.value + staleAfter < asked)))
  }

  /** The batch of a claim in plain terms: those waiting, the oldest first, and all of them unless it is full. */
  lemma TakesWhoIsWaiting(t: A.Tables, asked: nat, staleAfter: nat, limit: nat, ids: seq<A.CvId>)
    requires A.IsBatch(t, asked, staleAfter, limit, ids)
    ensures |ids| <= limit
    ensures forall cv :: cv in ids ==> Waiting(t.cvs, t.analyses, cv, asked, staleAfter)
    ensures forall cv :: Waiting(t.cvs, t.analyses, cv, asked, staleAfter) && cv !in ids ==>
              |ids| == limit && forall c :: c in ids ==> t.cvs[c].createdAt <= t.cvs[cv].createdAt
    ensures forall i, j :: 0 <= i < j < |ids| ==>
              ids[i] != ids[j] && t.cvs[ids[i]].createdAt <= t.cvs[ids[j]].createdAt
  {
    var all := A.AllEligible(t, asked, staleAfter);
    forall cv ensures cv in all <==> Waiting(t.cvs, t.analyses, cv, asked, staleAfter) {}
    forall cv | cv in all && cv !in ids ensures |ids| == limit {
      A.DistinctCount(ids, all - {cv});
    }
  }

  class AnalysisDatabase {
    var cvs: map<A.CvId, A.CvRow>
    var analyses: map<A.CvId, A.Analysis>
    var findings: map<A.CvId, Findings>   // the rest of an analysis row, where there is any

    constructor ()
      ensures State() == A.Tables(map[], map[]) && findings == map[]
    {
      cvs, analyses, findings := map[], map[], map[];
    }

    function Found(cv: A.CvId): Option<Findings>
      reads this
    {
      if cv in findings then Some(findings[cv]) else None
    }

    function State(): A.Tables
      reads this
    {
      A.Tables(cvs, analyses)
    }

    /** The transaction's creates: a PENDING row for every candidate that has none. */
    method CreateMissing(candidates: seq<A.CvId>, stamped: nat)
      modifies this`analyses
      ensures analyses.Keys == old(analyses).Keys + (set c | c in candidates)
      ensures forall c :: c in old(analyses) ==> analyses[c] == old(analyses)[c]
      ensures forall c :: c in analyses && c !in old(analyses) ==> analyses[c] == A.Analysis(A.PENDING, Some(stamped))
    {
      for n := 0 to |candidates|
        invariant analyses.Keys == old(analyses).Keys + (set c | c in candidates[..n])
        invariant forall c :: c in old(analyses) ==> analyses[c] == old(analyses)[c]
        invariant forall c :: c in analyses && c !in old(analyses)
                              ==> analyses[c] == A.Analysis(A.PENDING, Some(stamped))
      {
        assert candidates[..n + 1] == candidates[..n] + [candidates[n]];
        if candidates[n] !in analyses {
          analyses := analyses[candidates[n] := A.Analysis(A.PENDING, Some(stamped))];
        }
      }
      assert candidates[..|candidates|] == candidates;
    }

    /** The transaction of a claim: rows are created for the CVs that have none, and the others' stamps are moved. */
    method StampAll(candidates: seq<A.CvId>, stamped: nat)
      modifies this`analyses
      ensures analyses.Keys == old(analyses).Keys + set cv | cv in candidates
      ensures forall cv :: cv in candidates ==>
                analyses[cv] == A.Analysis(if cv in old(analyses) then old(analyses)[cv].status else A.PENDING,
                                           Some(stamped))
      ensures forall cv :: cv in old(analyses) && cv !in candidates ==> analyses[cv] == old(analyses)[cv]
    {
      var toClaim := set cv | cv in candidates && cv in analyses;
      CreateMissing(candidates, stamped);
      analyses := map cv | cv in analyses ::
        if cv in toClaim then analyses[cv].(startedAt := Some(stamped)) else analyses[cv];
    }

    /** `claimPendingCvIds`, given the batch its query read. It takes only CVs that wait for an analysis, the oldest
        first, and leaves none waiting unless the batch is full; each one taken ends with a row stamped with the
        claim, PENDING if it had none. */
    method ClaimPendingCvIds(asked: nat, stamped: nat, staleAfter: nat, limit: nat, candidates: seq<A.CvId>)
      returns (claimed: seq<A.CvId>)
      requires A.Possible(State(), A.Claim(asked, stamped, staleAfter, limit, candidates))
      modifies this`analyses
      ensures claimed == candidates && |claimed| <= limit
      ensures State() == A.Next(old(State()), A.Claim(asked, stamped, staleAfter, limit, candidates))
      ensures forall cv :: cv in claimed ==> Waiting(cvs, old(analyses), cv, asked, staleAfter)
      ensures forall cv :: Waiting(cvs, old(analyses), cv, asked, staleAfter) && cv !in claimed ==>
                |claimed| == limit && forall c :: c in claimed ==> cvs[c].createdAt <= cvs[cv].createdAt
      ensures forall i, j :: 0 <= i < j < |claimed| ==>
                claimed[i] != claimed[j] && cvs[claimed[i]].createdAt <= cvs[claimed[j]].createdAt
      ensures analyses.Keys == old(analyses).Keys + set cv | cv in claimed
      ensures forall cv :: cv in claimed ==>
                analyses[cv] == A.Analysis(if cv in old(analyses) then old(analyses)[cv].status else A.PENDING,
                                           Some(stamped))
      ensures forall cv :: cv in old(analyses) && cv !in claimed ==> analyses[cv] == old(analyses)[cv]
    {
      TakesWhoIsWaiting(State(), asked, staleAfter, limit, candidates);
      hide A.IsBatch, Waiting;
      if |candidates| > 0 {
        StampAll(candidates, stamped);
      }
      assert analyses == A.Stamp(old(State()), candidates, stamped).analyses;
      return candidates;
    }

    /** `upsert`; the foreign key refuses a CV whose row is gone. */
    method Save(analysis: CvAnalysis, works: bool) returns (ok: bool)
      requires analysis.status != A.PENDING && analysis.startedAt == None
      modifies this
      ensures ok <==> works && analysis.cvId in cvs && !cvs[analysis.cvId].Purged?
      ensures State() == if ok then A.Next(old(State()), A.Save(analysis.cvId, analysis.status)) else old(State())
      ensures cvs == old(cvs)
      ensures analyses == if ok then old(analyses)[analysis.cvId := analysis.Row()] else old(analyses)
      ensures Found(analysis.cvId) == if ok then analysis.findings else old(Found(analysis.cvId))
      ensures forall c :: c != analysis.cvId ==> Found(c) == old(Found(c))
    {
      ok := works && analysis.cvId in cvs && !cvs[analysis.cvId].Purged?;
      if ok {
        analyses := analyses[analysis.cvId := analysis.Row()];
        findings := if analysis.findings.Some? then findings[analysis.cvId := analysis.findings.value]
                    else findings - {analysis.cvId};
      }
    }

    /** `analyzeCv`: it throws exactly when its very first read does, which stands before the try. Otherwise
        it stores COMPLETED, or skips, or stores FAILED if that last save works and the CV still has a row:
        also when it was the read of the file's row, or the first save, that failed, and then even for a
        soft-deleted CV. Either result clears the claim. A failure keeps what an earlier success found, except
        that one whose own first save failed stores what it has found itself. */
    method AnalyzeCv(cvId: A.CvId, attempt: Attempt, fold: string -> string, now: nat) returns (ending: Ending)
      modifies this
      ensures ending.Threw? <==> !attempt.firstReadWorks
      ensures cvs == old(cvs)
      ensures ending.Ended? ==> Settled(cvId, attempt, cvs, old(analyses), analyses)
      ensures ending.Ended? && ending.saved.Some? <==>
                && attempt.firstReadWorks
                && cvId in cvs && !cvs[cvId].Purged? && (attempt.fileReadWorks ==> cvs[cvId].Live?)
                && (attempt.lastSaveWorks || (attempt.fileReadWorks && attempt.found.Some? && attempt.firstSaveWorks))
      ensures ending != Ended(Some(A.PENDING))
      ensures State() == if ending.Ended? && ending.saved.Some?
                         then A.Next(old(State()), A.Save(cvId, ending.saved.value)) else old(State())
      ensures Found(cvId) == if ending.Ended? && ending.saved.Some? && attempt.fileReadWorks && attempt.found.Some?
                             then Some(Normal(attempt.found.value, fold)) else old(Found(cvId))
      ensures forall c :: c != cvId ==> Found(c) == old(Found(c))
    {
      if !attempt.firstReadWorks {
        return Threw;
      }
      var analysis := new CvAnalysis(cvId, if cvId in analyses then Some(analyses[cvId]) else None, Found(cvId));
      var ok := false;
      if attempt.fileReadWorks {
        if !A.IsLive(State(), cvId) {
          return Ended(None);
        }
        if attempt.found.Some? {
          analysis.MarkCompleted(attempt.found.value, fold, now);
          ok := Save(analysis, attempt.firstSaveWorks);
          if ok {
            return Ended(Some(A.COMPLETED));
          }
        }
      }
      analysis.MarkFailed(attempt.error, now);
      ok := Save(analysis, attempt.lastSaveWorks);
      return Ended(if ok then Some(A.FAILED) else None);
    }

    /** The cron's loop over the batch it has claimed, with no catch of its own: an analysis that throws ends
        it, and every CV from there on keeps the claim just stamped on it. */
    method AnalyzeBatch(claimed: seq<A.CvId>, attempts: seq<Attempt>, fold: string -> string, now: nat)
      returns (analyzed: nat)
      requires |attempts| == |claimed| && forall i, j :: 0 <= i < j < |claimed| ==> claimed[i] != claimed[j]
      modifies this
      ensures analyzed <= |claimed| && (forall i :: 0 <= i < analyzed ==> attempts[i].firstReadWorks)
      ensures analyzed < |claimed| ==> !attempts[analyzed].firstReadWorks
      ensures cvs == old(cvs)
      ensures forall i :: 0 <= i < analyzed ==> Settled(claimed[i], attempts[i], cvs, old(analyses), analyses)
      ensures forall i :: analyzed <= i < |claimed| ==> SameRow(claimed[i], old(analyses), analyses)
    {
      analyzed := 0;
      while analyzed < |claimed|
        invariant 0 <= analyzed <= |claimed| && cvs == old(cvs)
        invariant forall i :: 0 <= i < analyzed ==> attempts[i].firstReadWorks
        invariant forall i :: 0 <= i < analyzed ==> Settled(claimed[i], attempts[i], cvs, old(analyses), analyses)
        invariant forall i :: analyzed <= i < |claimed| ==> SameRow(claimed[i], old(analyses), analyses)
      {
        var ending := AnalyzeCv(claimed[analyzed], attempts[analyzed], fold, now);
        if ending.Threw? {
          return;
        }
        analyzed := analyzed + 1;
      }
    }
  }
}
