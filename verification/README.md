# Verified model of the recruitment backend's protocols

A Dafny model of the parts of this NestJS recruitment backend whose correctness rests on runs, clocks and
interleavings, with proofs. `dafny verify dfyconfig.toml` checks all of it.

| file | what it models |
|---|---|
| `Digest.dfy` | the job-alert digest: a worker pool sharing `nextIndex`, inside a keyset-paginated loop |
| `RateLimiter.dfy`, `ChatGateway.dfy` | the two sliding-window chat limiters and their relation; the services and socket handlers around them |
| `LoginLockout.dfy` | the failure counter and lock key, and the login handler that drives them |
| `IdempotentCreate.dfy` | lookup, insert against a unique key, re-read: messages and conversations under concurrency |
| `MessagePaging.dfy`, `BatchQueries.dfy` | cursor paging; batched unread counts and last messages against their single forms |
| `Recruitment.dfy`, `RecruitmentHandlers.dfy` | applications, history, CVs, interviews and conversations as one transition system; the entities and handlers that are its steps |
| `CvAnalysisClaim.dfy` | claiming CVs for analysis, and how an analysis ends |
| `Races.dfy` | pairs of check-then-write commands whose halves interleave |
| `SlugSearch.dfy` | slug normalisation and the search for an untaken suffix |
| `Tokens.dfy` | refresh tokens and emailed codes, and the cleanup |
| `Permissions.dfy` | the guards against locking everybody out, and the permission cache |
| `Jobs.dfy` | the job commands, public search, and the closing of expired jobs |
| `Wrappers.dfy` | optional values, the orders of two racing commands, sizes of sets, and sets read in ascending order |

Most components come in two layers: functions on values that say what one call does, with the lemmas about
whole runs; and classes whose methods change fields step by step as the source does, each proved to be that
function of the old state and to give the answers and store the rows its contract spells out.

## Conventions and assumptions

- Time is a `nat` in the source's unit. Where a result needs it, the clock never goes back and is one clock
  for the application, the database and Redis.
- Tables are maps, sets or sequences. Unique keys and foreign-key actions are those of
  `prisma/schema.prisma`: one application per user and job (lines 493-524), `cvId` set to null when its CV is
  purged (518-519), one conversation per application, one analysis per CV, unique token hashes, role names and
  permission names. A role or permission is identified by its unique name. A query is its filter, order and
  limit; a transaction is one atomic step. A Prisma cursor whose row is gone yields no rows.
- Handlers run one at a time unless a result says interleaved. Several are check-then-write, so this is a real
  assumption; `Races.dfy` says for six pairs of commands which orders of their checks and writes keep the
  invariant. The worker pool, the idempotent creates, the analysis claims and the permission cache are modelled
  interleaved.
- Ids and hashes are opaque; new ids are the caller's choice and a clash is the unique-key error. Saved-search
  ids stand for their rank in the database's string order. Sorted-set members are distinct.
- Signature checks, bcrypt, mail, storage and the language model appear only as outcomes that may be good or
  bad. A socket event that overtakes its handshake is a call by a user without sockets. Limits and durations in
  the configuration are positive.
- Lower-casing and Unicode decomposition are any functions that leave slugs alone.

## Where the code and its comments disagree

The model follows the code.

- `chat-rate-limiter.service.ts` lines 14-17 and 125 say both limiters behave alike and a refused call is not
  consumed. The in-memory form records refused calls: `SlidingWindow.FormsAgreeIff`,
  `SlidingWindow.RefusedRetriesLockTheInMemoryCaller`.
- The same file, lines 38-40, keys quotas by user so that reconnecting cannot bypass the limit. Closing the
  last socket and reconnecting inside the window still does, and nothing else:
  `ChatGateway.ReconnectingBypassesTheLimit`, `ChatGateway.LimitHoldsConnectedIffNoReconnection`.
- `analyze-pending-cvs.cron.ts` lines 16-20 say a tick does not re-claim what the previous one has in flight.
  The default threshold is half a tick: `AnalysisClaims.DefaultClaimNeverCoversATick`.
- The same file, lines 49-50, and `cv-analysis.service.ts` lines 25-26 say an analysis never throws. Its first
  read stands before the `try`, so it can, and that ends the tick's batch:
  `CvAnalysisService.AnalysisDatabase.AnalyzeCv`, `CvAnalysisService.AnalysisDatabase.AnalyzeBatch`.
- `job.infra-repository.ts` lines 81-84 say applying to an expired job meets `JobPostingExpiredException`.
  It meets `JobNotAcceptingApplicationsException`, unless the expiry falls between two clock readings of one
  lookup: `JobBoard.ExpiryIsReportedOnlyBetweenReadings`.
- `permissions.service.ts` lines 13-15 say a permission change takes effect immediately. A lookup in flight can
  bring the old set back for 30 seconds: `PermissionCache.StaleAnswerAfterInvalidation`,
  `PermissionCache.ServedAnswersAreRecent`.
- `update-role-permissions.command.ts` lines 66-71 explain the guard as keeping the endpoint reachable. It keeps
  a role with the permission, not a person with the role: `Rbac.GuardsDoNotKeepAdministrable`,
  `Rbac.CommandKeepsAdministrableIff`. Nor does the admin guard of `admin-update-user-status.command.ts` lines 56-58
  keep one: `Rbac.BlockingTheLastManagerPassesTheGuard`.
- `cleanup-expired-tokens.command.ts` speaks of purging revoked refresh tokens; it deletes expired ones only.
- `send-job-alert-digests.command.ts` line 70 reports `emailsSent` as digest e-mails sent. It also counts the
  searches for which there was nothing to mail or nobody to mail to (lines 110-113):
  `Digest.SendJobAlertDigestsHandler.Execute`.
- `create-message.command.ts` lines 81-82 say retries collapse onto one row. They do, but a send that lost the
  insert race still emits the event: `IdempotentCreate.AnnouncedTwiceIffTheyMeet`.

## Model

| member | source | states |
|---|---|---|
| `WorkerPool.EveryScheduleIsSafe` | src/modules/job-alert/application/commands/send-job-alert-digests.command.ts:76-92 | In every interleaving the started items are exactly the first `nextIndex`, each once; at most min(concurrency, length) are in flight; started = in flight + settled |
| `WorkerPool.EveryScheduleTerminates` | src/modules/job-alert/application/commands/send-job-alert-digests.command.ts:81-91 | No interleaving is longer than 2·items + workers stretches, none gets stuck, and with a worker all have left after exactly that many |
| `WorkerPool.FinishedPoolSettledEverythingOnce` | src/modules/job-alert/application/commands/send-job-alert-digests.command.ts:75-92 | When all workers have left every item has settled exactly once, if and only if there was a worker or nothing to do |
| `Digest.BatchIsNextRows` | src/modules/job-alert/infrastructure/persistence/prisma/saved-search-prisma.repository.ts:33-39 | A batch is the gap-free ascending run of rows after the cursor, short only at the end of the table |
| `Digest.VisitsAscend` | src/modules/job-alert/application/commands/send-job-alert-digests.command.ts:43-66 | Whatever is inserted or removed between reads, visited ids strictly ascend: batches are disjoint, no saved search is visited twice |
| `Digest.StableRowsVisited` | src/modules/job-alert/application/commands/send-job-alert-digests.command.ts:43-66 | A row present at every read is visited exactly when it is not above the last cursor |
| `Digest.StableRowsAllVisitedIff` | src/modules/job-alert/application/commands/send-job-alert-digests.command.ts:43-66 | Every row present throughout is visited if and only if the last read still found its cursor row or nothing stable lay beyond it |
| `Digest.DeletedCursorRowSkipsTheRest` | src/modules/job-alert/infrastructure/persistence/prisma/saved-search-prisma.repository.ts:33-39 | A concrete run: deleting the cursor row between reads ends the digest early and silently |
| `Digest.FixedTableReadExactly` | src/modules/job-alert/application/commands/send-job-alert-digests.command.ts:38-66 | On an unchanging table the batches concatenate to the whole table in id order |
| `Digest.SendJobAlertDigestsHandler.RunTask` | src/modules/job-alert/application/commands/send-job-alert-digests.command.ts:50-63 | A send that throws adds one to failures, any other, also one with nothing to mail, one to emailsSent |
| `Digest.TallyIsOrderless` | src/modules/job-alert/application/commands/send-job-alert-digests.command.ts:76-92 | What is counted does not depend on the order the workers end in |
| `Digest.AtMostFifteenInFlight` | src/modules/job-alert/application/commands/send-job-alert-digests.command.ts:48-92 | However the digests of a batch are scheduled no more than fifteen are in flight at once |
| `Digest.SendJobAlertDigestsHandler.Resume` | src/modules/job-alert/application/commands/send-job-alert-digests.command.ts:84-90 | One stretch of any worker keeps the pool invariant, shortens what remains, and counts an item the way its send went when its task ends |
| `Digest.SendJobAlertDigestsHandler.RunWithConcurrency` | src/modules/job-alert/application/commands/send-job-alert-digests.command.ts:76-92 | Under any scheduler each item's task ends exactly once (none if there is no worker) and is counted the way it went |
| `Digest.SendJobAlertDigestsHandler.RunNextBatch` | src/modules/job-alert/application/commands/send-job-alert-digests.command.ts:44-63 | One turn of the loop reads the next 200 rows, visits exactly those and counts each the way it went |
| `Digest.SendJobAlertDigestsHandler.Execute` | src/modules/job-alert/application/commands/send-job-alert-digests.command.ts:32-73 | The loop terminates, its batches form a run of the keyset query, it visited exactly what it read; failures is the number of sends that threw, emailsSent the number of mails plus the searches with nothing to mail |
| `SlidingWindow.MemStoreRefines` | src/modules/chat/infrastructure/services/chat-rate-limiter.service.ts:126-137 | The timestamp array admits a call exactly when fewer than `limit` calls, admitted or refused, lie in the window before it |
| `SlidingWindow.RedisStoreIsLiveLog` | src/modules/chat/infrastructure/services/chat-rate-limiter.service.ts:25-32 | Eviction and expiry lose nothing: at any later time the key's live scores are the live part of the whole admission log |
| `SlidingWindow.DeadlineCoversScores` | src/modules/chat/infrastructure/services/chat-rate-limiter.service.ts:27-30 | PEXPIRE never drops a live entry: every stored score is at least one window older than the key's deadline |
| `SlidingWindow.RedisStoreRefines` | src/modules/chat/infrastructure/services/chat-rate-limiter.service.ts:18-33 | The expiring sorted set admits a call exactly when fewer than `limit` admissions lie in the window before it |
| `SlidingWindow.RedisWindowBound` | src/modules/chat/infrastructure/services/chat-rate-limiter.service.ts:25-32 | Over the whole run no window holds more than `limit` admissions |
| `SlidingWindow.MemWindowBound` | src/modules/chat/infrastructure/services/chat-rate-limiter.service.ts:132-136 | Between clears no window holds more than `limit` admissions |
| `SlidingWindow.MemAdmitsImpliesRedisAdmits` | src/modules/chat/infrastructure/services/chat-rate-limiter.service.ts:18-33 | On one call sequence, every call the in-memory form admits the Redis form admits |
| `SlidingWindow.FormsAgreeIff` | src/modules/chat/infrastructure/services/chat-rate-limiter.service.ts:10-17 | The two forms answer alike on a run if and only if memory never refuses a call while fewer than `limit` admissions are in the window |
| `SlidingWindow.RefusedRetriesLockTheInMemoryCaller` | src/modules/chat/infrastructure/services/chat-rate-limiter.service.ts:125-136 | For every limit a run of refused retries makes memory refuse a call Redis admits, with no admission left in the window |
| `SlidingWindow.ClearsMultiplyTheBound` | src/modules/chat/infrastructure/services/chat-rate-limiter.service.ts:86-89 | Across clears a window holds at most limit·(1 + clears in it) admissions |
| `SlidingWindow.ReconnectResetsTheQuota` | src/modules/chat/infrastructure/services/chat-rate-limiter.service.ts:35-40 | That factor is met: one disconnect between two bursts of one instant admits 2·limit calls |
| `SlidingWindow.PlainLimitHoldsIffNoClear` | src/modules/chat/infrastructure/services/chat-rate-limiter.service.ts:86-89 | Of all runs with given clears, every one keeps the plain limit in a window if and only if no clear falls in it |
| `ChatGateway.ChatRateLimiterService.ConsumeInMemory` | src/modules/chat/infrastructure/services/chat-rate-limiter.service.ts:126-137 | Filter, record, judge: the method computes the array form's step for one user |
| `ChatGateway.ChatRateLimiterService.ConsumeRedis` | src/modules/chat/infrastructure/services/chat-rate-limiter.service.ts:104-123 | The script computes the sorted-set form's step and touches no other key |
| `ChatGateway.ChatRateLimiterService.Consume` | src/modules/chat/infrastructure/services/chat-rate-limiter.service.ts:60-102 | Both quota methods answer what their form promises for the calls so far, and only that quota changes |
| `ChatGateway.ChatRateLimiterService.ClearInMemoryQuota` | src/modules/chat/infrastructure/services/chat-rate-limiter.service.ts:86-89 | Forgets one user's in-memory quotas and no Redis key |
| `ChatGateway.ChatPresenceService.AddSocket` | src/modules/chat/infrastructure/services/chat-presence.service.ts:15-21 | Adds the socket; true exactly when the user had none |
| `ChatGateway.ChatPresenceService.RemoveSocket` | src/modules/chat/infrastructure/services/chat-presence.service.ts:24-33 | Removes the socket; true exactly when it was the user's only one |
| `ChatGateway.Gateway.HandleConnection` | src/modules/chat/infrastructure/gateways/chat.gateway.ts:63-83 | The socket is added exactly when authentication and the room join work, and stays open exactly when, besides, any broadcast does; nothing else changes |
| `ChatGateway.Gateway.HandleDisconnect` | src/modules/chat/infrastructure/gateways/chat.gateway.ts:85-108 | The socket leaves; a user's in-memory quotas are cleared exactly when it was the last, nobody else's and no Redis quota is touched; quotas of unconnected users stay absent |
| `ChatGateway.Gateway.UseQuota` | src/modules/chat/infrastructure/gateways/chat.gateway.ts:121-167 | One call advances one session; quotas exist for connected users only afterwards if and only if the caller is connected or Redis is configured |
| `ChatGateway.ReconnectingMultipliesTheBound` | src/modules/chat/infrastructure/gateways/chat.gateway.ts:97-107 | Over any connections, disconnections and calls, a window holds at most limit·(1 + last-socket disconnects in it) admissions |
| `ChatGateway.LimitHoldsIffNobodyLeaves` | src/modules/chat/infrastructure/gateways/chat.gateway.ts:97-107 | Among given connections the plain limit holds of a window, whatever calls are made, if and only if the user's last socket does not go in it |
| `ChatGateway.LimitHoldsConnectedIffNoReconnection` | src/modules/chat/infrastructure/services/chat-rate-limiter.service.ts:37-40 | For calls made while connected it holds if and only if the user does not reconnect in the window after the last socket has gone in it |
| `ChatGateway.ReconnectingBypassesTheLimit` | src/modules/chat/infrastructure/services/chat-rate-limiter.service.ts:37-40 | Connect, `limit` calls, disconnect, connect, `limit` calls at one instant: all 2·limit are admitted |
| `ChatGateway.Gateway.OnMessageSend` | src/modules/chat/infrastructure/gateways/chat.gateway.ts:160-167 | A send, also one that overtakes its handshake, passes exactly when fewer than 20 of the user's own earlier sends (admitted ones under Redis, all in memory) lie in the ten seconds before it, and uses the send quota alone |
| `ChatGateway.Gateway.OnMessageRead` | src/modules/chat/infrastructure/gateways/chat.gateway.ts:121-130 | The same for subscribing and reading, which share a quota of 30 in ten seconds |
| `LockoutKeys.LockoutBound` | src/modules/auth/infrastructure/adapters/login-attempt-redis.adapter.ts:45-60 | With lockout ≥ window every success-free interval of one window holds at most max(1, 2·maxAttempts − 2) evaluated failures, in every run |
| `LockoutKeys.LockoutBoundIsTight` | src/modules/auth/infrastructure/adapters/login-attempt-redis.adapter.ts:45-60 | Some run meets the bound for every configuration with a window of more than one tick |
| `LockoutKeys.ShortLockoutBreaksTheBound` | src/modules/auth/infrastructure/adapters/login-attempt-redis.adapter.ts:28-36 | With a shorter lockout some run exceeds the bound, for every limit |
| `LockoutKeys.BoundHoldsIffLockoutCoversWindow` | src/modules/auth/infrastructure/adapters/login-attempt-redis.adapter.ts:28-60 | The bound holds of every run if and only if the lockout lasts at least one window |
| `LockoutKeys.LockHolds` | src/modules/auth/application/queries/login.query.ts:40-42 | While the lock key lives no attempt is evaluated and none moves the keys |
| `LockoutKeys.LocksExactlyAtTheMaximum` | src/modules/auth/infrastructure/adapters/login-attempt-redis.adapter.ts:45-60 | On a fresh account the maxAttempts-th failure within a window of the first locks and no earlier one, and the lock lasts exactly the lockout: the next attempt's answer in every case |
| `LockoutKeys.SuccessStartsAfresh` | src/modules/auth/application/queries/login.query.ts:55 | Over every run: after a right password that meets no lock none of the next maxAttempts attempts is turned away, however close to the maximum the account was |
| `Login.LoginAttemptRedisAdapter.IsLocked` | src/modules/auth/infrastructure/adapters/login-attempt-redis.adapter.ts:39-43 | Locked exactly when Redis is configured and the lock key lives |
| `Login.LoginAttemptRedisAdapter.RegisterFailure` | src/modules/auth/infrastructure/adapters/login-attempt-redis.adapter.ts:45-60 | INCR, EXPIRE on the first failure, lock at the maximum; other identifiers untouched |
| `Login.LoginAttemptRedisAdapter.ResetOnSuccess` | src/modules/auth/infrastructure/adapters/login-attempt-redis.adapter.ts:62-65 | Deletes both keys of one identifier |
| `Login.LoginHandler.Execute` | src/modules/auth/application/queries/login.query.ts:39-65 | A login is one step of the lockout machine; a live lock turns it away and moves no key, a right password that meets none deletes both keys, whatever the account status |
| `IdempotentCreate.EveryCallerGetsTheOneRow` | src/modules/chat/infrastructure/repositories/message.infra-repository.ts:33-69 | Any number of callers in any interleaving: at most one row per key, every finished caller holds it, none reaches the rethrow |
| `IdempotentCreate.ExactlyOneCreator` | src/modules/chat/infrastructure/repositories/conversation.infra-repository.ts:35-81 | Exactly one caller of a key whose row is new reports having created it, and the row is that caller's |
| `IdempotentCreate.EveryCallerFinishes` | src/modules/chat/infrastructure/repositories/conversation.infra-repository.ts:35-81 | No schedule has more than three steps per caller, and one that cannot be extended has left nobody waiting |
| `IdempotentCreate.AnnouncedOnceIffNoLostRace` | src/modules/chat/application/commands/create-message.command.ts:83-154 | The message-sent event goes out at most once per message if and only if no caller lost the insert race |
| `IdempotentCreate.AnnouncedTwiceIffTheyMeet` | src/modules/chat/application/commands/create-message.command.ts:83-137 | Once every caller has finished, a message was announced twice if and only if two of its callers stood between lookup and insert at once |
| `IdempotentCreate.RaceAnnouncesTwice` | src/modules/chat/application/commands/create-message.command.ts:136-154 | A concrete schedule of two sends that announces one message twice |
| `MessagePaging.FirstPage` | src/modules/chat/infrastructure/repositories/message.infra-repository.ts:81-94 | The first page is the newest `limit` messages oldest first, with a cursor exactly when it is full |
| `MessagePaging.NextPage` | src/modules/chat/infrastructure/persistence/prisma/message-prisma.repository.ts:65-85 | A following page is the `limit` messages just before the cursor's time |
| `MessagePaging.FollowIsJoined` | src/modules/chat/infrastructure/repositories/message.infra-repository.ts:81-94 | Following a cursor ends, and messages arriving meanwhile neither repeat nor displace older ones |
| `MessagePaging.PagesJoinIff` | src/modules/chat/infrastructure/persistence/prisma/message-prisma.repository.ts:70-84 | The pages join to the whole conversation if and only if no page boundary falls between messages of equal time |
| `MessagePaging.TieLosesAMessage` | src/modules/chat/infrastructure/persistence/prisma/message-prisma.repository.ts:76-83 | A concrete tie on a page boundary after which one message is on no page |
| `MessagePaging.DistinctTimesPageExactly` | src/modules/chat/infrastructure/repositories/message.infra-repository.ts:81-94 | With distinct times the pages joined oldest first are the whole conversation in order |
| `BatchQueries.BatchedIsSinglePlusOvercount` | src/modules/chat/infrastructure/persistence/prisma/message-prisma.repository.ts:120-137 | For any items, repeated conversations included, the grouped count is the single count plus what other items of the conversation let in |
| `BatchQueries.CountUnreadIsExact` | src/modules/chat/infrastructure/persistence/prisma/message-prisma.repository.ts:95-107 | The single count is the number of messages in the conversation by somebody else after the threshold, if there is one |
| `BatchQueries.BatchedUnreadEqualsSingle` | src/modules/chat/application/queries/list-my-conversations.query.ts:70-88 | For distinct conversations the batched unread count, a missing one read as 0, equals the single count and the number of messages by somebody else after the threshold |
| `BatchQueries.FillMap` | src/modules/chat/infrastructure/repositories/message.infra-repository.ts:109-118 | The loop keeps every row under its own conversation and nothing else |
| `BatchQueries.FilledMapAnswersEach` | src/modules/chat/infrastructure/repositories/message.infra-repository.ts:109-118 | The filled map answers each requested conversation as the single last-message query does, and no other |
| `BatchQueries.LastMessageIsUnique` | src/modules/chat/infrastructure/persistence/prisma/message-prisma.repository.ts:87-118 | With distinct times both queries name the same message |
| `Pipeline.TerminalSetsAgree` | src/modules/interview/application/utils/ensure-application-interviewable.util.ts:7-13 | The transition map, the interview list and the CV list agree on which statuses are final; HIRED is final |
| `Pipeline.TransitionIff` | src/modules/application/domain/value-objects/application-status.vo.ts:18-55 | A transition is allowed if and only if the status is none of HIRED, REJECTED, WITHDRAWN and the target is REJECTED or the next rung of APPLIED, SCREENING, SHORTLISTED, INTERVIEW, OFFER, HIRED |
| `Pipeline.ExplainingLogShape` | src/modules/application/domain/value-objects/application-status.vo.ts:18-55 | An explaining log starts from APPLIED, chains, climbs in rank, has at most five rows, nothing after a final one, and only the applicant withdraws |
| `Recruitment.CvWriteKeepsSound` | src/modules/cv/infrastructure/persistence/prisma/cv-prisma.repository.ts:32-38 | A CV row may be written as long as it keeps its owner and its publication and is not deleted under an open application |
| `Recruitment.DeleteCvKeepsSound` | src/modules/cv/application/commands/delete-cv.command.ts:23-38 | Deleting a CV keeps the joint invariant |
| `Recruitment.PurgeKeepsSound` | src/modules/cv/application/commands/purge-deleted-cvs.command.ts:32-59 | A purge, whichever deletes fail, keeps the joint invariant |
| `Recruitment.ApplyKeepsSound` | src/modules/application/application/commands/apply-job.command.ts:55-117 | Applying keeps the joint invariant |
| `Recruitment.MoveKeepsSound` | src/modules/application/infrastructure/persistence/prisma/job-application-prisma.repository.ts:79-92 | A status change with its history row keeps the joint invariant |
| `Recruitment.ScheduleKeepsSound` | src/modules/interview/application/commands/schedule-interview.command.ts:55-101 | Scheduling keeps the joint invariant, in particular one active interview per application and a place for each |
| `Recruitment.ChangeKeepsSound` | src/modules/interview/domain/entities/interview-schedule.entity.ts:35-85 | Rescheduling and finishing interviews keep the joint invariant |
| `Recruitment.StartConversationKeepsSound` | src/modules/chat/application/commands/create-conversation.command.ts:48-94 | Starting a conversation keeps the joint invariant, in particular one per application and HIRED only |
| `Recruitment.EveryReachableStateIsSound` | src/modules/application/application/commands/apply-job.command.ts:55-117 | In every reachable state: open applications have a live, published, own CV; one application per user and job; logs explain statuses; interviews and conversations are sound |
| `Recruitment.EveryAnswerIsOwed` | src/modules/application/application/commands/apply-job.command.ts:59-111 | Every command, in any state, goes through if and only if none of its reasons for a refusal holds of the rows, and is refused with the first that does, in one order of all reasons |
| `Recruitment.MovesForward` | src/modules/application/application/commands/update-application-status.command.ts:42-88 | The poster's status update goes through exactly on the next rung or REJECTED, and then writes that status and that history row and nothing else |
| `Recruitment.WithdrawsOpen` | src/modules/application/application/commands/withdraw-application.command.ts:30-59 | A withdrawal goes through exactly for the applicant on an open application, and then writes WITHDRAWN and that history row and nothing else |
| `Recruitment.ClimbReaches` | src/modules/application/domain/value-objects/application-status.vo.ts:18-40 | From any open application its job's poster reaches any rung above with one command per rung, and changes nothing but that status and the history |
| `Recruitment.EveryOpenApplicationCanBeHired` | src/modules/application/domain/value-objects/application-status.vo.ts:35-38 | In every state every open application can be hired by its job's poster, in as many commands as rungs are left, after which the conversation can be started |
| `Recruitment.EveryRunSettles` | src/modules/application/domain/entities/job-application.entity.ts:28-47 | Whatever follows, a final status, its log and its interviews never change, logs only grow, conversations stay as they are |
| `Recruitment.ConversationsStayHired` | src/modules/chat/application/commands/create-conversation.command.ts:21-58 | Once a conversation exists its application is HIRED in every later state of every run |
| `Recruitment.DeleteGuardIsExact` | src/modules/cv/infrastructure/persistence/prisma/cv-prisma.repository.ts:66-78 | Deleting a CV keeps every open application safe if and only if the active-reference guard lets it through |
| `Recruitment.PurgeTouchesOnlySettled` | src/modules/cv/infrastructure/persistence/prisma/cv-prisma.repository.ts:26-30 | What a purge nulls is only the CV pointer of an application with a final status |
| `RecruitmentRaces.OnlySerialOrdersKeepCvSafety` | src/modules/application/application/commands/apply-job.command.ts:59-111 | With the checks and the write of an application and of a deletion split, an order keeps CV safety if and only if it is serial |
| `RecruitmentRaces.RacesExist` | src/modules/cv/application/commands/delete-cv.command.ts:23-38 | Sound states in which both would go through exist |
| `RecruitmentRaces.OnlySerialOrdersKeepOneInterview` | src/modules/interview/application/commands/schedule-interview.command.ts:81-101 | Two schedules of one application keep it to one active interview if and only if they run one after the other |
| `RecruitmentRaces.OnlySerialOrdersKeepTheLogFaithful` | src/modules/application/application/commands/update-application-status.command.ts:48-75 | Two moves of one application, updates or withdrawals, leave a log that explains the status if and only if they run one after the other |
| `RecruitmentHandlers.JobApplication.TransitionTo` | src/modules/application/domain/entities/job-application.entity.ts:28-36 | Moves exactly from a status that is not final, to REJECTED or to the next rung; otherwise changes nothing |
| `RecruitmentHandlers.JobApplication.Withdraw` | src/modules/application/domain/entities/job-application.entity.ts:39-47 | Withdraws exactly from a status other than HIRED, REJECTED, WITHDRAWN |
| `RecruitmentHandlers.Cv.Publish` | src/modules/cv/domain/entities/cv.entity.ts:38-43 | Publishes a draft, refuses a published CV |
| `RecruitmentHandlers.Cv.SoftDelete` | src/modules/cv/domain/entities/cv.entity.ts:52-57 | Marks a live CV deleted, refuses a deleted one |
| `RecruitmentHandlers.InterviewSchedule.Reschedule` | src/modules/interview/domain/entities/interview-schedule.entity.ts:35-59 | The guards in order; goes through exactly on an active interview with a time ahead and a place afterwards; what is not given stays, null clears; a refusal for want of a place leaves the object, and only it, half changed |
| `RecruitmentHandlers.InterviewSchedule.Finish` | src/modules/interview/domain/entities/interview-schedule.entity.ts:61-85 | Cancel, complete and no-show exactly from an active interview, each storing its own status |
| `RecruitmentHandlers.Database.CreateCv` | src/modules/cv/application/commands/create-cv.command.ts:68-95 | Keeps the database sound; stores exactly a published CV of its creator, or is refused for a clash |
| `RecruitmentHandlers.Database.DeleteCv` | src/modules/cv/application/commands/delete-cv.command.ts:23-38 | Keeps the database sound; answers the first reason that holds (gone, not the caller's, held by an open application) or deletes that CV and changes nothing else, after which only settled applications point to it |
| `RecruitmentHandlers.Database.CountActiveReferences` | src/modules/cv/infrastructure/persistence/prisma/cv-prisma.repository.ts:73-78 | Counts the applications other than HIRED, REJECTED, WITHDRAWN that hold the CV |
| `RecruitmentHandlers.Database.PublishCv` | src/modules/cv/infrastructure/persistence/prisma/cv-prisma.repository.ts:13-17 | Keeps the database sound; answers the first reason that holds (gone, not the caller's, published already) or publishes that CV and changes nothing else |
| `RecruitmentHandlers.Database.PurgeDeletedCvs` | src/modules/cv/application/commands/purge-deleted-cvs.command.ts:32-66 | Keeps the database sound; purged + failures covers every candidate; exactly the CVs deleted more than 30 days ago are gone, except those whose delete fails, and only settled applications lose a pointer |
| `RecruitmentHandlers.Database.Apply` | src/modules/application/application/commands/apply-job.command.ts:55-117 | Keeps the database sound; answers the first reason that holds (job not found, CV gone, job not accepting, expired, removed, CV unpublished, not the applicant's, applied before) or stores exactly the APPLIED application, the user's only one for the job |
| `RecruitmentHandlers.Database.UpdateWithHistory` | src/modules/application/infrastructure/persistence/prisma/job-application-prisma.repository.ts:79-92 | The status changes and exactly one row joins the log |
| `RecruitmentHandlers.Database.UpdateStatus` | src/modules/application/application/commands/update-application-status.command.ts:42-88 | Keeps the database sound; goes through if and only if the caller posted the job, the status is not final and the target is REJECTED or the next rung, and then writes exactly that status and that history row; otherwise the first reason that holds |
| `RecruitmentHandlers.Database.Withdraw` | src/modules/application/application/commands/withdraw-application.command.ts:30-59 | Keeps the database sound; goes through exactly for the applicant on an open application, and then writes exactly WITHDRAWN and its history row; otherwise the first reason that holds |
| `RecruitmentHandlers.Database.EnsureInterviewable` | src/modules/interview/application/commands/schedule-interview.command.ts:59-74 | Passes exactly on an open application, for the poster of its job |
| `RecruitmentHandlers.Database.Schedule` | src/modules/interview/application/commands/schedule-interview.command.ts:55-101 | Keeps the database sound; answers the first reason that holds or stores exactly the interview asked for, SCHEDULED, which is then the one active interview of an open application, ahead and with a place |
| `RecruitmentHandlers.Database.ChangeInterview` | src/modules/interview/application/commands/reschedule-interview.command.ts:53-88 | Keeps the database sound; answers the first reason that holds or changes only that interview: a reschedule what it mentions, the others to CANCELLED, COMPLETED or NO_SHOW; a refused change is never written back |
| `RecruitmentHandlers.Database.StartConversation` | src/modules/chat/application/commands/create-conversation.command.ts:48-94 | Keeps the database sound; answers the first reason that holds, or finds the application's conversation unchanged, or adds exactly one between the applicant and the recruiter; either way the hired application then has one |
| `RecruitmentHandlers.Database.EnsureMayTalk` | src/modules/chat/application/commands/create-conversation.command.ts:52-68 | Passes exactly on a hired application, for the poster of its job |
| `AnalysisClaims.ClaimedIffRoom` | src/modules/ai/infrastructure/persistence/prisma/cv-analysis-prisma.repository.ts:78-97 | An eligible CV is claimed whenever fewer than `limit` others are not younger and only if fewer than `limit` are older; without another of its age the two are one condition |
| `AnalysisClaims.EveryTickCanClaim` | src/modules/ai/infrastructure/persistence/prisma/cv-analysis-prisma.repository.ts:78-97 | Whatever the tables hold the query has an answer |
| `AnalysisClaims.WaitingIsInEveryShortBatch` | src/modules/ai/infrastructure/persistence/prisma/cv-analysis-prisma.repository.ts:79-92 | A live CV without an analysis, or with an unclaimed PENDING or FAILED one, is in every batch shorter than `limit` |
| `AnalysisClaims.NewCvIsClaimed` | src/modules/ai/infrastructure/persistence/prisma/cv-analysis-prisma.repository.ts:82 | Over every run an uploaded CV is taken by the first claim with room to spare and ends it with a PENDING analysis |
| `AnalysisClaims.ClaimStampsExactlyItsBatch` | src/modules/ai/infrastructure/persistence/prisma/cv-analysis-prisma.repository.ts:100-120 | A claim stamps exactly the CVs it returns and leaves every other analysis alone |
| `AnalysisClaims.ReclaimedOnlyAfterFailureOrStaleness` | src/modules/ai/infrastructure/persistence/prisma/cv-analysis-prisma.repository.ts:72-121 | Over every run a CV is claimed again only after a FAILED result was saved or its claim grew older than the threshold |
| `AnalysisClaims.CompletedIsNeverClaimed` | src/modules/ai/infrastructure/persistence/prisma/cv-analysis-prisma.repository.ts:85-89 | A COMPLETED analysis is never claimed and stays so unless a FAILED result is saved over it |
| `AnalysisClaims.ClaimProtectsUntilStale` | src/modules/ai/infrastructure/persistence/prisma/cv-analysis-prisma.repository.ts:84-90 | An unfinished claim is up for claiming again exactly when the next claim asks more than the threshold after its stamp |
| `AnalysisClaims.DefaultClaimNeverCoversATick` | src/modules/ai/application/jobs/analyze-pending-cvs.cron.ts:16-38 | Ten-minute ticks, a five-minute threshold: an unfinished claim is always up again at the next tick; a threshold of one tick or more prevents it |
| `AnalysisClaims.FailingCvsStarveYoungerOnes` | src/modules/ai/infrastructure/persistence/prisma/cv-analysis-prisma.repository.ts:95-96 | While `limit` older CVs keep failing, no tick of any number of ticks claims a younger one |
| `CvAnalysisService.CvAnalysis.MarkCompleted` | src/modules/ai/domain/entities/cv-analysis.entity.ts:46-64 | Stores the findings with normalised skills, completes the analysis, clears claim and failure |
| `CvAnalysisService.CvAnalysis.MarkFailed` | src/modules/ai/domain/entities/cv-analysis.entity.ts:66-71 | Fails the analysis, clears the claim, keeps all findings of an earlier success |
| `CvAnalysisService.AnalysisDatabase.CreateMissing` | src/modules/ai/infrastructure/persistence/prisma/cv-analysis-prisma.repository.ts:101-109 | Creates a PENDING row for each candidate that has none and changes no other |
| `CvAnalysisService.AnalysisDatabase.StampAll` | src/modules/ai/infrastructure/persistence/prisma/cv-analysis-prisma.repository.ts:100-120 | Every candidate ends with a row stamped now, with the status it had or PENDING; no other row changes |
| `CvAnalysisService.AnalysisDatabase.ClaimPendingCvIds` | src/modules/ai/infrastructure/persistence/prisma/cv-analysis-prisma.repository.ts:72-121 | Takes only live CVs with no analysis or an unfinished one nobody has claimed since the threshold, oldest first, and leaves none such behind unless the batch is full; each one taken is stamped, no other row changes |
| `CvAnalysisService.AnalysisDatabase.Save` | src/modules/ai/infrastructure/persistence/prisma/cv-analysis-prisma.repository.ts:55-61 | The upsert stores status and findings unless it fails or the CV's row is gone, and touches no other CV |
| `CvAnalysisService.AnalysisDatabase.AnalyzeCv` | src/modules/ai/application/services/cv-analysis.service.ts:49-98 | Throws exactly when the first read fails; otherwise a saved COMPLETED, a saved FAILED (also for a deleted CV whose file read failed) or nothing saved, each exactly when stated; a failure keeps earlier findings unless it has its own |
| `CvAnalysisService.AnalysisDatabase.AnalyzeBatch` | src/modules/ai/application/jobs/analyze-pending-cvs.cron.ts:48-52 | The cron's loop ends at the first analysis that throws; each one before it has left its CV's row as its reads, findings and saves decide, and every CV from there on keeps its row as claimed |
| `Skills.Normalized` | src/modules/ai/domain/entities/cv-analysis.entity.ts:78-85 | No duplicates, no empty names, exactly the folded names given |
| `Skills.NormalizedTwice` | src/modules/ai/domain/entities/cv-analysis.entity.ts:78-85 | Normalising normalised skills changes nothing |
| `Skills.NormalizedKeepsOrder` | src/modules/ai/domain/entities/cv-analysis.entity.ts:78-85 | Skills keep the order they are first named in |
| `Slugs.NormalizedIsJoined` | src/modules/company/application/commands/create-company.command.ts:109-110 | The two replacements compute the words joined by single hyphens |
| `Slugs.NormalizedIsSlug` | src/modules/company/application/commands/create-company.command.ts:109-110 | The result has no leading, trailing or doubled hyphen, a string is its own normal form exactly when it is a slug, and normalising is idempotent |
| `Slugs.BaseIsSlug` | src/modules/company/application/commands/create-company.command.ts:104-110 | From the name on: the base is the folded, mark-free name's words joined by hyphens, a slug, the name itself exactly when that is a slug, and idempotent |
| `Slugs.WordCharsByCode` | src/modules/company/application/commands/create-company.command.ts:109 | The characters kept are the ASCII lower-case letters and digits |
| `Slugs.DecimalReadsBack` | src/modules/company/application/commands/create-company.command.ts:115 | The suffix is the number's decimal numeral without leading zeros: read in base ten it is the number |
| `Slugs.DecimalIsInjective` | src/modules/company/application/commands/create-company.command.ts:115 | Distinct suffixes have distinct decimals |
| `Slugs.TakenBoundsTheSearch` | src/modules/company/application/commands/create-company.command.ts:112-116 | Pigeonhole: the search never goes past |taken| + 1 |
| `Slugs.FindUniqueSlug` | src/modules/company/application/commands/create-company.command.ts:104-118 | Terminates after at most |taken| + 1 lookups with the one first free candidate: the base if that is free, otherwise base-k for the least free k from 2 on |
| `Slugs.FirstFreeIsUnique` | src/modules/company/application/commands/create-company.command.ts:112-116 | There is only one first free candidate |
| `Slugs.CandidateIsSlugIff` | src/modules/company/application/commands/create-company.command.ts:115 | The suffixed slug is a slug if and only if the base has a letter or digit or is not suffixed |
| `Slugs.RepeatedNamesCountUp` | src/modules/company/application/commands/create-company.command.ts:112-117 | A name created again and again gets consecutive numbers |
| `TokenLifecycle.DeadTokenIsNeverAccepted` | src/modules/auth/infrastructure/persistence/refresh-token-prisma.repository.ts:22-30 | A revoked refresh token is never accepted again in any run |
| `TokenLifecycle.RefreshIsSingleUse` | src/modules/auth/application/auth.service.ts:141-172 | A token that passed a refresh's guards is never accepted again |
| `TokenLifecycle.LogoutEndsTheSession` | src/modules/auth/application/auth.service.ts:111-117 | Logging out ends the caller's session for good and touches no other |
| `TokenLifecycle.RedeemIsSingleUse` | src/modules/auth/infrastructure/persistence/verification-token-prisma.repository.ts:24-50 | A code is redeemed at most once and only as its own kind |
| `TokenLifecycle.LoginCanRefresh` | src/modules/auth/application/auth.service.ts:154-172 | The token of a login can be exchanged by its active owner up to and including its expiry, and not later |
| `TokenLifecycle.RefreshCanRefresh` | src/modules/auth/application/auth.service.ts:165-172 | And so can the token a refresh hands out |
| `TokenLifecycle.IssuedCodeIsRedeemable` | src/modules/auth/infrastructure/persistence/verification-token-prisma.repository.ts:24-50 | An emailed code can be redeemed up to and including its expiry, as its own kind while its user exists, and in no other way |
| `TokenLifecycle.InactiveUserGetsNoToken` | src/modules/auth/application/auth.service.ts:174-187 | Over every run: while a user's account is not active and he does not log in, all his refreshes are refused, change nothing, and no token becomes his |
| `TokenLifecycle.RefreshConservesSessions` | src/modules/auth/application/auth.service.ts:165-171 | A refresh keeps every user's number of live sessions |
| `TokenLifecycle.LogoutAllLeavesNone` | src/modules/auth/application/auth.service.ts:120-123 | Logging out everywhere leaves the user no live session and everybody else theirs |
| `TokenLifecycle.SessionsComeFromLogins` | src/modules/auth/application/auth.service.ts:141-198 | Over every run a user has at most the initial live sessions plus the logins since |
| `TokenLifecycle.CleanupIsUnobservable` | src/modules/auth/application/commands/cleanup-expired-tokens.command.ts:27-41 | Over every run deleting dead rows changes no caller's answer if and only if no new hash clashes with a deleted one |
| `TokenLifecycle.AClashWouldRevealTheCleanup` | src/modules/auth/infrastructure/persistence/refresh-token-prisma.repository.ts:46-51 | Without fresh hashes it would: a concrete run |
| `TokenRaces.OnlySerialOrdersConserveSessions` | src/modules/auth/application/auth.service.ts:154-169 | Two refreshes of one token keep the number of sessions in serial orders and add one in all others |
| `AuthService.TokenTables.FindValidByHash` | src/modules/auth/infrastructure/persistence/refresh-token-prisma.repository.ts:22-30 | Finds the row exactly when it is neither revoked nor expired |
| `AuthService.TokenTables.Create` | src/modules/auth/infrastructure/persistence/refresh-token-prisma.repository.ts:12-20 | Stores a row unless its hash is taken |
| `AuthService.TokenTables.RevokeByHash` | src/modules/auth/infrastructure/persistence/refresh-token-prisma.repository.ts:32-37 | Revokes only the named user's token |
| `AuthService.TokenTables.RevokeAllForUser` | src/modules/auth/infrastructure/persistence/refresh-token-prisma.repository.ts:39-44 | Revokes all tokens of one user and no other's |
| `AuthService.TokenTables.DeleteExpired` | src/modules/auth/infrastructure/persistence/refresh-token-prisma.repository.ts:46-51 | Deletes exactly the expired tokens and counts them |
| `AuthService.TokenTables.DeleteExpiredOrUsed` | src/modules/auth/infrastructure/persistence/verification-token-prisma.repository.ts:49-54 | Deletes exactly the expired or used codes and counts them |
| `AuthService.TokenTables.CleanupExpiredTokens` | src/modules/auth/application/commands/cleanup-expired-tokens.command.ts:27-41 | The handler is the cleanup step: exactly the expired tokens and the expired or used codes go, and are counted |
| `AuthService.TokenTables.RefreshTokens` | src/modules/auth/application/auth.service.ts:141-172 | Guards in order, each answer exactly when its condition holds: only an active account with a usable token of its own is issued one, blocked, pending and missing accounts are refused and keep their token; then revoke, then store |
| `AuthService.TokenTables.Redeem` | src/modules/auth/application/commands/reset-password.command.ts:36-68 | Goes through exactly for a live unused code of the kind asked for whose user exists; the code is then used, and one account changed, that of the code's user; a reset also revokes all and only that user's tokens |
| `Rbac.BothGuardsHoldForever` | src/modules/permission/application/commands/update-role-permissions.command.ts:66-100 | Through every serial run some role keeps `role:permission:manage` and some active admin remains |
| `Rbac.RoleGuardIsExact` | src/modules/permission/application/commands/update-role-permissions.command.ts:72-100 | The role guard refuses exactly the replacements that would leave no role with the permission |
| `Rbac.AdminGuardIsCautious` | src/modules/user/application/commands/admin-update-user-status.command.ts:65-74 | When the admin guard refuses, the update would have left no active admin if and only if its target was active |
| `Rbac.NobodyRemovesHimself` | src/modules/user/application/commands/admin-update-user-status.command.ts:56-63 | Over every run in which nobody else updates a user he keeps his role, and his status stays as it is or becomes ACTIVE |
| `Rbac.DoneDoesExactlyThat` | src/modules/user/application/commands/admin-update-user-status.command.ts:76-85 | A command that goes through changes its own target as told and nothing else |
| `RbacRaces.AdminsSurviveIff` | src/modules/user/application/commands/admin-update-user-status.command.ts:69-85 | Two updates that each take an active admin away leave one if and only if they run one after the other or there is a third |
| `RbacRaces.ManagementSurvivesIff` | src/modules/permission/application/commands/update-role-permissions.command.ts:56-59 | Two role updates that each take the permission away leave it to some role if and only if they run one after the other or a third role has it |
| `Rbac.GuardsDoNotKeepAdministrable` | src/modules/permission/application/commands/update-role-permissions.command.ts:66-73 | A concrete update passes both guards, keeps both promises, and leaves nobody who can manage permissions |
| `Rbac.UpdateRoleKeepsAdministrableIff` | src/modules/permission/application/commands/update-role-permissions.command.ts:41-64 | A role replacement leaves somebody who can manage permissions if and only if the new set has the permission and the role an active user, or another role's active user can |
| `Rbac.BlockingTheLastManagerPassesTheGuard` | src/modules/user/application/commands/admin-update-user-status.command.ts:65-74 | A concrete user update passes the admin guard and leaves nobody who can manage permissions |
| `Rbac.AdminUpdateKeepsAdministrableIff` | src/modules/user/application/commands/admin-update-user-status.command.ts:46-85 | A user update leaves somebody who can if and only if the user still can afterwards or somebody else can |
| `Rbac.CommandKeepsAdministrableIff` | src/modules/user/application/commands/admin-update-user-status.command.ts:46-85 | The exact condition to check before any command |
| `Rbac.AlwaysAdministrableIff` | src/modules/permission/application/commands/update-role-permissions.command.ts:41-64 | Over every run somebody can manage at every moment if and only if each command met its condition when given |
| `Rbac.AdministrableWhileAdminManages` | src/modules/permission/application/commands/update-role-permissions.command.ts:41-64 | As long as the ADMIN role keeps the permission somebody can always manage |
| `PermissionCache.EveryInterleavingIsSound` | src/modules/permission/application/permissions.service.ts:23-41 | In every interleaving of split lookups and updates each cached entry is what the table held when it was read, and expires 30 s after its store |
| `PermissionCache.ServedAnswersAreRecent` | src/modules/permission/application/permissions.service.ts:23-39 | A served answer was stored less than 30 s before; with no invalidation outstanding it is wrong exactly when the updates between its read and its store changed the role, in general exactly when those since its read did |
| `PermissionCache.StaleAnswerAfterInvalidation` | src/modules/permission/application/permissions.service.ts:9-15 | A concrete interleaving in which old permissions are served after the invalidation |
| `PermissionCache.OldAnswerUntilInvalidation` | src/modules/permission/application/commands/update-role-permissions.command.ts:58-61 | A concrete run in which old permissions are served between an update's write and its invalidation |
| `PermissionHandlers.Administration.GetPermissionsForRole` | src/modules/permission/application/permissions.service.ts:23-37 | A serial lookup, cached or not, answers what the table holds now |
| `PermissionHandlers.Administration.ReplacePermissions` | src/modules/permission/infrastructure/persistence/prisma/role-prisma.repository.ts:49-59 | Replaces exactly one role's grants |
| `PermissionHandlers.Administration.EnsureRbacAdministrationSurvives` | src/modules/permission/application/commands/update-role-permissions.command.ts:72-100 | The guard's early returns and count compute the survival condition |
| `PermissionHandlers.Administration.UpdateRolePermissions` | src/modules/permission/application/commands/update-role-permissions.command.ts:41-64 | Each refusal exactly when its condition holds; otherwise the given permissions become the role's, no other role's change, and the cache is emptied |
| `PermissionHandlers.Administration.AdminUpdateUser` | src/modules/user/application/commands/admin-update-user-status.command.ts:46-102 | Each refusal exactly when its condition holds: user unknown, own account losing activity or role, an admin losing either while at most one admin is active; otherwise exactly that user's role and status change; sessions are revoked exactly on a block or a role change |
| `JobBoard.SearchShowsOpenJobs` | src/modules/job/infrastructure/repositories/job.infra-repository.ts:78-88 | Search shows exactly the OPEN, undeleted jobs whose expiry lies ahead, and an application is welcome exactly at those and at the instant of expiry |
| `JobBoard.ExpiryIsReportedOnlyBetweenReadings` | src/modules/application/application/commands/apply-job.command.ts:67-76 | The expired refusal fires exactly when the expiry falls between the lookup's two clock readings, the removed refusal never |
| `JobBoard.ClosedApartStep` | src/modules/job/application/commands/close-expired-jobs.command.ts:20-27 | Under every command the closing job makes no more difference than some open jobs being closed |
| `JobBoard.AlikeIffNobodyCanTell` | src/modules/job/application/commands/close-expired-jobs.command.ts:20-27 | No search or application from now on can tell the difference if and only if those jobs have all expired |
| `JobBoard.ClosingIsNoticedIffRevived` | src/modules/job/application/commands/close-expired-jobs.command.ts:20-27 | Over every run of all the job commands the closing job can be noticed if and only if a recruiter moves the expiry of a job it closed to that moment or later |
| `JobBoard.ClosingIsUnobservable` | src/modules/job/application/commands/close-expired-jobs.command.ts:20-27 | Over every run of all the job commands without a revival, every search and application is answered as if the closing job had never run |
| `JobBoard.RevivedJobShows` | src/modules/job/domain/entities/job.entity.ts:144-172 | Once a closed job's expiry is moved to `e` and the job left alone, search differs exactly before `e` and applying exactly up to `e` |
| `JobBoard.RecruiterHearsIff` | src/modules/job/application/commands/reopen-job.command.ts:25-39 | A recruiter hears the difference exactly when closing or reopening a job the closing job has closed |
| `JobHandlers.Job.Open` | src/modules/job/domain/entities/job.entity.ts:92-97 | Opens any job that is not open |
| `JobHandlers.Job.Close` | src/modules/job/domain/entities/job.entity.ts:99-104 | Closes any job that is not closed |
| `JobHandlers.Job.Reopen` | src/modules/job/domain/entities/job.entity.ts:106-111 | Reopens only a closed job |
| `JobHandlers.Job.SoftDelete` | src/modules/job/domain/entities/job.entity.ts:113-119 | Deletes and closes a live job |
| `JobHandlers.Job.UpdateDetails` | src/modules/job/domain/entities/job.entity.ts:144-172 | Changes the expiry when one is given and no status |
| `JobHandlers.JobTable.CreateJob` | src/modules/job/application/commands/create-job.command.ts:86-117 | Stores exactly an OPEN job of the recruiter, shown in search if and only if its expiry lies ahead; a clash is refused |
| `JobHandlers.JobTable.CloseJob` | src/modules/job/application/commands/close-job.command.ts:25-39 | Refused exactly for a job not found, not the recruiter's, or closed; otherwise only its status becomes CLOSED, no search shows it and it welcomes nobody |
| `JobHandlers.JobTable.ReopenJob` | src/modules/job/application/commands/reopen-job.command.ts:25-39 | Refused exactly for a job not found, not the recruiter's, or not closed; otherwise only its status becomes OPEN, and it is shown exactly when its old expiry lies ahead |
| `JobHandlers.JobTable.UpdateJob` | src/modules/job/application/commands/update-job.command.ts:62-107 | Refused exactly for a job not found or not the recruiter's; a given expiry is stored and nothing else changes, so no closed job is shown |
| `JobHandlers.JobTable.DeleteJob` | src/modules/job/application/commands/delete-job.command.ts:23-33 | Refused exactly for a job not found or not the recruiter's; otherwise it is closed and deleted, and no lookup finds it |
| `JobHandlers.JobTable.CloseExpiredJobs` | src/modules/job/application/commands/close-expired-jobs.command.ts:20-27 | No `close()` in it throws; it closes the listed jobs, each open, live and past its expiry, in order up to the first whose update is rejected, and changes no other; with none rejected no such job is left |

## Left out

- Slugs.BaseIsSlug: lower-casing and Unicode decomposition are library functions that leave slugs alone.
- MessagePaging.PagesJoinIff: rows of equal time keep one order over all reads; the query does not fix one.
- Recruitment.EveryReachableStateIsSound: holds of serial runs, because the handlers check and then write.
- AnalysisClaims.ReclaimedOnlyAfterFailureOrStaleness: one claim call is one atomic step, although its query
  and its transaction are two round trips.
- Login.LoginHandler.Execute: serial logins; concurrent ones can each pass the lock check before any failure is
  counted.
- AnalysisClaims.FailingCvsStarveYoungerOnes: nothing but the ticks and their saves happens between them.
- The recruitment handlers' events and mails, interview notes and durations, conversation members, and
  attachments: they decide nothing modelled here.
- The storage object a purge deletes: its failure is ignored by the source.
- Invalid dates: request validation is upstream of the handlers.
- Candidate search and how an analysis extracts; skill names are folded by a library function.
- The touch of `lastMessageAt`, read markers, message edits and deletions.
- Job details beyond poster, status and expiry; company, category and skill creation beyond the slug.
- Registration, social login and exchange codes: the latter work like the emailed codes.
- Socket rooms, typing and presence broadcasts; controllers, validation, mappers, logging.
