# Edify planning platform: verified models of the stateful services

The platform (a Django application) makes promises about every run of its services: that no
account is guessed at more than so often, that a replayed session token ends its family, that
the time shown for a person adds up, that two people never hold one seat. This project models
the services that carry those promises and proves them in Dafny.

Each module follows one service. The rows a service reads and writes are a datatype (or
sequences of rows in insertion order), each operation is a function from state to state, and a
run is a sequence of calls, so that the main results are statements over every run from the
empty state. Beside it stands a class with the service's own fields, whose methods change them
step by step and are proved to do what the function says. Histories (a log of attempts, of
credits, of wrong codes) are kept beside the rows where a property speaks about the past; no
operation reads them. For each state machine a second module tells the same runs from the calls and
their answers alone, with every condition and constant written out, so that nothing rests on what an
operation says of itself.

| file | what it models |
|---|---|
| `Basics.dfy` | optional values, instants in microseconds, sums and counts over tables |
| `Mfa.dfy` | one-time codes: the hourly cap, one open challenge, attempts and resends |
| `MfaAnswers.dfy` | the same, told from calls and answers alone: what follows what, and how often |
| `Refresh.dfy` | refresh-token families, rotation, reuse detection |
| `RefreshHistory.dfy` | which calls end a token, and which tokens refresh after any run |
| `RefreshRace.dfy` | simultaneous refreshes of one token, with the row lock and the commit as steps |
| `Lockout.dfy` | failure streaks, locks, escalation, the sign-in backend that obeys them |
| `LockoutHistory.dfy` | what the backend answers and what is recorded of it |
| `Presence.dfy` | the time ledger, with the statements of concurrent requests interleaved |
| `PresenceHistory.dfy` | the stored row, the credits and the sign-ins, told from what the requests name |
| `PresenceReader.dfy` | what a period shows before and after the next beat |
| `PresencePanel.dfy` | whole minutes that add up from task to person to group to panel |
| `Calendar.dfy`, `Acting.dfy` | acting appointments by calendar month, the hint, the sweep |
| `ActingRules.dfy` | when an appointment, a cancellation or a change of month is accepted, and what it leaves |
| `ActingSweep.dfy` | the sweep's listing and stamping with other calls in between |
| `Closure.dfy` | closing and reopening at lock granularity |
| `ClosureHistory.dfy` | the row after any run, told from the acts that took effect |
| `Blockers.dfy` | closure blockers: reconciliation, one batch against one by one, the keyset loop |
| `BlockerRules.dfy` | checklists, rows and counts, told from the nine facts |
| `Reporting.dfy` | reporting lines and the one-lead rule |
| `ReportingRules.dfy` | when a change of lines is accepted, and which lines there are then |
| `Training.dfy` | the two readers of training credit |
| `TrainingCredits.dfy` | credit counted one row at a time |
| `PlanCounts.dfy` | the one-pass calendar counts |

## Where the code and its documentation differ

The model follows the code. For each of these a theorem says exactly when the promise holds, and a
run shows that it can fail.

- Refresh tokens: "ever presented again" kills the family only while the replayed token itself
  has not expired and its user is active (`Refresh.ReplayKillsFamilyIff`, `Refresh.ReplayAfterExpiry`).
- MFA: expiring open challenges reads the clock twice, so an expiry can move up, never by more
  than the time between the two readings (`Mfa.ExpiryMoves`, `Mfa.ExpiryMovesUpExample`).
- Lockout, the threshold: the streak is reset as a whole, so up to `2 * maxFailed - 3` failures can
  fall inside the window without a lock, and `2 * maxFailed - 2` never (`Lockout.BurstLocksIff`,
  `Lockout.RestartedRun`, `Lockout.ThresholdInsideWindowWithoutLock`).
- Lockout, the lock: the backend checks the row it loaded and records later, without looking again.
  A request that checked before the lock is counted inside it, or signs in and lifts it; exactly
  those do (`Lockout.RunRespectedIff`, `Lockout.TwoRequestsAtOnce`).
- Presence: once its credit is written, a total "does not jump when the next beat lands" exactly when
  the beat credits what was pending. A beat that saw the current row does; a stale one can lower the
  total or raise it (`PresenceReader.BeatKeepsTotalIff`, `PresenceReader.StaleBeatExample`,
  `PresenceReader.ClearedPageJumpsUp`). A read between a beat and its credit misses what is
  outstanding (`PresenceReader.FreshBeatAccounts`).
- Acting: the hint is read and written under no lock for the person, so two calls for one person
  can leave it behind the table (`Acting.StepHintsAgreeIff`, `Acting.LostHintExample`).
- Acting: a sweep looks at the dates when it lists and not when it stamps, so a reminder can be
  stamped on a month it is not due for, and is then never sent (`ActingSweep.StampedWasDueIff`,
  `ActingSweep.MovedReminderExample`).
- Closure: a reopening made at the very instant of the next closing blocks reopening that closing
  (`Closure.ReopenAcceptedIff`, `Closure.SameInstantIsRefused`).
- Blockers: a scheduled batch holds only the checklists it changed, so it can cross another writer
  and leave a requirement two rows, until the next evaluation (`Blockers.OneRowEachIff`,
  `Blockers.CrossedEvaluations`, `Blockers.NextEvaluationRepairs`).
- Reporting lines: managing people as Impact Assessment or Vice President while holding the
  Programme Lead role leaves an officer with two leads (`Reporting.ManagedKeepsOneLeadIff`,
  `Reporting.TwoLeadsExample`); so do two reassignments that cross
  (`Reporting.AssignKeepsOneLeadIff`, `Reporting.TwoReassignmentsExample`); and a reassignment
  deletes an oversight row when that is the line it finds (`Reporting.OversightAlwaysKeptIff`,
  `Reporting.OversightLostExample`).
- Training credit: the count of a school depends on which others are asked for, unless every
  legacy array stays within its session's register (`Training.IndependentIff`).

## Model

| member | source | states |
|---|---|---|
| `Mfa.RunKeepsInv` | `apps/accounts/mfa_service.py:338-552` | every start, resend and check keeps: eleven consecutive challenges span more than the window; each challenge ended before the next began; attempts are exactly the wrong codes compared and at most 5; messages at most 4 for each; the newest message carries the newest code |
| `Mfa.HourlyCreations` | `apps/accounts/mfa_service.py:338-364` | in any run every closed hour holds at most 10 challenge creations |
| `Mfa.AtMostOneOpen` | `apps/accounts/mfa_service.py:341-345` | in any run at most one challenge is open at any instant |
| `Mfa.HourlyAnswerable` | `apps/accounts/mfa_service.py:347-352` | at most 11 challenges can be answered at some instant of any closed hour |
| `Mfa.HourlyGuesses` | `apps/accounts/mfa_service.py:347-352` | the log of compared wrong codes has at most 55 entries in any closed hour; `MfaAnswers.RunAgrees` ties the log to the answers |
| `Mfa.HourlyMessages` | `apps/accounts/mfa_service.py:396-440` | at most 44 messages are sent in any closed hour |
| `Mfa.SignsInExactlyWith` | `apps/accounts/mfa_service.py:514-552` | in any run a typed code is accepted exactly when its digits are the code in the newest message, or what the authenticator shows, and its challenge is the newest, unused, unexpired and under five wrong guesses; and never ten minutes after the challenge was made |
| `Mfa.RunKeepsNewestShort` | `apps/accounts/mfa_service.py:424-426` | no resend or guess extends the newest challenge past ten minutes from its creation |
| `Mfa.DeadStaysDead` | `apps/accounts/models.py:362-415` | a used, expired or exhausted challenge compares no further code in any later state |
| `Mfa.ExpiryMoves` | `apps/accounts/mfa_service.py:449-452` | a call puts an existing expiry later exactly when it starts a challenge and the expiry lies between the clock reading that filters and the one that stamps |
| `Mfa.ExpiryMovesUpExample` | `apps/accounts/mfa_service.py:449-452` | two starts after which the first challenge's expiry is a tick later than it was |
| `Mfa.MfaService.StartChallenge` | `apps/accounts/mfa_service.py:338-393` | issues a challenge under the hourly cap after expiring the open ones, or refuses |
| `Mfa.MfaService.ResendCode` | `apps/accounts/mfa_service.py:396-440` | the resend limits in order; a fresh code, the expiry untouched |
| `Mfa.MfaService.VerifyCode` | `apps/accounts/mfa_service.py:514-552` | the refusals in order; a right code is spent, a wrong one counted, as `MfaAnswers.VerifiedIff` says for every run |
| `MfaAnswers.RunAgrees` | `apps/accounts/mfa_service.py:338-552` | after any run the account holds what the calls and their answers say: which challenges were issued, when and until when; which were spent; how many wrong codes each was told of; the messages, and one logged comparison for each answer that said the code was wrong |
| `MfaAnswers.AnswersCountDown` | `apps/accounts/mfa_service.py:547-552` | from the answers alone: "incorrect" leaves 4, 3, 2 and then 1, so one challenge says it at most four times; "too many" comes only after four of them |
| `MfaAnswers.OverIsOver` | `apps/accounts/mfa_service.py:518-523` | after "too many" or an accepted code no later answer on that challenge is "incorrect" or accepts |
| `MfaAnswers.HourlyWrongAnswers` | `apps/accounts/mfa_service.py:347-352` | at most 55 answers of any closed hour follow a comparison with a wrong code, counted from the answers |
| `MfaAnswers.HourlySentMessages` | `apps/accounts/mfa_service.py:396-440` | at most 44 messages go out in any closed hour, counted from the answers |
| `MfaAnswers.StartedIff` | `apps/accounts/mfa_service.py:347-352` | a start is answered exactly when fewer than ten challenges were issued in the hour before |
| `MfaAnswers.OpenIff` | `apps/accounts/mfa_service.py:341-345` | a challenge is open exactly when it is the newest, no code was accepted on it, and its ten minutes are not over |
| `MfaAnswers.VerifiedIff` | `apps/accounts/mfa_service.py:514-552` | each of the five answers to a code holds exactly under its condition on the exchanges before it |
| `MfaAnswers.ResentIff` | `apps/accounts/mfa_service.py:396-440` | so does each answer to asking for the code again |
| `MfaAnswers.DigitsExact` | `apps/accounts/mfa_service.py:525` | only digits of what was typed are compared, and a code of digits as it is |
| `Refresh.RunKeepsInv` | `apps/accounts/auth_services.py:231-308` | every sign-in, refresh, sign-out and reset keeps each family a chain whose only possibly live token is its end |
| `Refresh.FamilyIsAChain` | `apps/accounts/jwt.py:50-74` | two tokens of one family belong to one user and the later descends from the earlier |
| `Refresh.ParentIsKin` | `apps/accounts/jwt.py:59-63` | a parent shares its child's family and user |
| `Refresh.ConsumedForOneChild` | `apps/accounts/auth_services.py:282-292` | a token is consumed exactly when it has a child, and never has two |
| `Refresh.OneLiveEnd` | `apps/accounts/auth_services.py:235-240` | at most one token of a family is unrevoked; it has no child and descends from all the others |
| `Refresh.ReuseIsFinal` | `apps/accounts/auth_services.py:264-297` | after the reuse branch no token of the family is live in any later state and every later refresh with one fails |
| `Refresh.ReplayKillsFamilyIff` | `apps/accounts/auth_services.py:235-240` | replaying a spent token leaves the family dead exactly when that token is unexpired and its user active, or the family was dead already |
| `Refresh.ReplayAfterExpiry` | `apps/accounts/auth_services.py:274-279` | an eight-day run in which the replay leaves a live, usable child |
| `Refresh.RevokedIsFinal` | `apps/accounts/auth_services.py:280-286` | a revoked token is refused in every later state |
| `Refresh.SingleUse` | `apps/accounts/auth_services.py:231-292` | a token is exchanged once, for the only live token of its family, and never again |
| `Refresh.TokenService.IssueTokenPair` | `apps/accounts/jwt.py:50-74` | mints in the given family with the given parent, or starts a new family |
| `Refresh.TokenService.SignIn` | `apps/accounts/jwt.py:59-63` | a sign-in starts a new family |
| `Refresh.TokenService.RefreshSession` | `apps/accounts/auth_services.py:262-297` | refusals, the reuse branch and the rotation, with their whole effect on the table |
| `Refresh.TokenService.SignOut` | `apps/accounts/auth_services.py:300-309` | revokes the presented token if it is live, nothing else, as `RefreshHistory.SignedOutStaysOut` says for every later run |
| `Refresh.TokenService.ChangeStatus` | `apps/accounts/auth_services.py:271-272` | the set of active users that a refresh reads becomes the given one |
| `Refresh.TokenService.ResetPassword` | `apps/accounts/auth_services.py:400-404` | revokes every live token of the user, nothing else |
| `RefreshHistory.StepMints` | `apps/accounts/jwt.py:50-74` | every sign-in mints a token of a new family and every answered refresh one of the same family and person, good for seven days; nothing else mints, and no token changes person, family, parent or expiry |
| `RefreshHistory.LiveAfterIff` | `apps/accounts/auth_services.py:264-309` | a token is live after a call exactly when it was live before and the call did not end it: a sign-out with it, its own exchange, a reset of its person, or the replay of a spent token of its family; what was not ended is untouched |
| `RefreshHistory.LiveInTheEndIff` | `apps/accounts/auth_services.py:264-309` | the same over every run |
| `RefreshHistory.SignInRefreshesIff` | `apps/accounts/auth_services.py:262-297` | in any run the token of a sign-in refreshes exactly when no call ended it, its seven days are not over, and its person is active |
| `RefreshHistory.ChildRefreshesIff` | `apps/accounts/auth_services.py:288-292` | so does the token a refresh handed out |
| `RefreshHistory.SignedOutStaysOut` | `apps/accounts/auth_services.py:300-309` | after a sign-out with a token no later run has it refresh; every other token is as it was |
| `RefreshHistory.ResetSignsOutEverywhere` | `apps/accounts/auth_services.py:400-404` | after a reset no token the person had ever refreshes again; other people keep theirs |
| `RefreshHistory.StampsTellWhen` | `apps/accounts/auth_services.py:264-292` | which call puts which stamp on a token, and that it is the instant of the call |
| `RefreshRace.RunKeepsInv` | `apps/accounts/auth_services.py:242-252` | whatever the interleaving of lock, statements and commit: a decision to rotate stays valid until it commits, and a revocation misses nothing |
| `RefreshRace.OneWinnerAtMost` | `apps/accounts/auth_services.py:242-252` | any number of simultaneous refreshes of one token yields at most one success; once one completes by the reuse branch no token of the family is live, then or later |
| `RefreshRace.SecondKillsFamily` | `apps/accounts/auth_services.py:242-252` | after a success, any further request that gets the lock before the token runs out revokes the whole family |
| `RefreshRace.MintingAfterCommitLeaksAChild` | `apps/accounts/auth_services.py:245-252` | with the child minted after the commit instead, an interleaving leaves it live behind the revocation |
| `RefreshRace.AloneIsARefresh` | `apps/accounts/auth_services.py:242-252` | a request that nothing crosses leaves the tokens a refresh leaves, with its answer, releases the lock and moves no other request |
| `RefreshRace.OneChildForTheWinner` | `apps/accounts/auth_services.py:245-252` | whatever the interleaving, once a request has succeeded the presented token has one child |
| `Lockout.CountersSummariseHistory` | `apps/accounts/lockout_service.py:105-177` | in any run the failure count is below the maximum, zero exactly when there is no streak start, the length of a streak that fits the reset window; the cycle count is the length of the chain of locks; escalated as the history says; every lock was earned by that many failures inside the window |
| `Lockout.RunKeepsInv` | `apps/accounts/lockout_service.py:105-256` | every failure, success, unlock and admin lock keeps that summary |
| `Lockout.ChainIsLongest` | `apps/accounts/lockout_service.py:135-143` | the cycle count is the longest run of locks since the last unlock with every gap inside the escalation window |
| `Lockout.EscalatedIff` | `apps/accounts/lockout_service.py:145-156` | escalated exactly when, since the last unlock, an admin locked the account or a lock brought the chain to the threshold |
| `Lockout.ThresholdInsideWindowWithoutLock` | `apps/accounts/lockout_service.py:116-126` | three failures inside half an hour that do not lock, because the streak restarted between them |
| `Lockout.LongBurstLocks` | `apps/accounts/lockout_service.py:116-126` | the burst, `2 * maxFailed - 2` failures since the last lock, success or unlock, never fits inside one reset window (`maxFailed` of them when the maximum is 1 or the window is empty) |
| `Lockout.RestartedRun` | `apps/accounts/lockout_service.py:116-126` | for every maximum of at least 2, a run whose failures since the last lock are one, then two short of the maximum at the end of its window, then one short of it just after |
| `Lockout.BurstLocksIff` | `apps/accounts/lockout_service.py:116-135` | n failures inside one window always lock exactly when n is at least the burst |
| `Lockout.NothingCountsDuringALock` | `apps/accounts/auth_backend.py:46-66` | in any run through the backend whose requests record on the row they checked, no failure is counted and nobody signs in within a lock's duration, or between an escalation and the unlock |
| `Lockout.LockedIffStands` | `apps/accounts/lockout_service.py:83-102` | a row that matches its history is locked exactly while a recorded lock stands (not run out, not unlocked, not cleared by a sign-in) or an escalation does |
| `Lockout.ReachableLockedIffStands` | `apps/accounts/lockout_service.py:83-102` | so in every reachable row |
| `Lockout.LockedSinceTheCheck` | `apps/accounts/auth_backend.py:46-66` | over every interleaving: an outcome is recorded on a locked row exactly when what locks it was recorded after the row the request checked |
| `Lockout.RespectedIff` | `apps/accounts/auth_backend.py:46-66` | a recorded attempt is the first to fall inside a lock or escalation exactly when that was recorded after the row the request checked |
| `Lockout.RunRespectedIff` | `apps/accounts/auth_backend.py:28-67` | over every interleaved run: nothing is counted or let in during a lock or escalation exactly when none was recorded between any request's check and its recording |
| `Lockout.TwoRequestsAtOnce` | `apps/accounts/auth_backend.py:46-66` | two requests that both found the account unlocked: one locks it, the other signs in and lifts the lock, or is counted inside it |
| `Lockout.NeverFlaggedIff` | `apps/accounts/health.py:56-71` | no reachable row is ever flagged as a legacy lock exactly when locks last at most thirty days or the first one always escalates |
| `Lockout.CheckLockout` | `apps/accounts/lockout_service.py:83-102` | whether a loaded row is locked, until when, and the whole seconds left |
| `Lockout.AccountRow.RecordFailedAttempt` | `apps/accounts/lockout_service.py:105-172` | the counters after one more failure, including the lock and the escalation it may trip |
| `Lockout.AccountRow.RecordSignIn` | `apps/accounts/lockout_service.py:203-212` | clears the streak and the lock, keeps cycles and escalation |
| `Lockout.AccountRow.AdminUnlock` | `apps/accounts/lockout_service.py:223-234` | clears everything but the time of the last lock |
| `Lockout.AccountRow.AdminLockAccount` | `apps/accounts/lockout_service.py:242-250` | escalates and clears the temporary lock |
| `Lockout.AccountRow.SignIn` | `apps/accounts/auth_backend.py:28-67` | the backend's order of checks on the row it loaded, what each outcome records on the row as it is then, and the answer `LockoutHistory.AcceptedIff` says |
| `LockoutHistory.StepRecords` | `apps/accounts/lockout_service.py:105-256` | what one call adds to the history: a failure, a success, an unlock, an admin lock, or nothing |
| `LockoutHistory.LogIsTheCalls` | `apps/accounts/lockout_service.py:105-256` | apart from the locks it earns, the history of a run is the list of what its calls were for |
| `LockoutHistory.AcceptedIff` | `apps/accounts/auth_backend.py:50-67` | a request is let in exactly when its row was unlocked at the check and account, password and permission are right; and exactly when its success is what is recorded |
| `LockoutHistory.AcceptedAreTheSuccesses` | `apps/accounts/auth_backend.py:62-67` | in any run through the backend the recorded successes are the requests it let in, in order |
| `Presence.CreditFits` | `apps/accounts/presence.py:452-461` | with an idle threshold of at least the final beat, no gap earns more than itself |
| `Presence.StepKeepsInv` | `apps/accounts/presence.py:414-501` | every statement of every interleaved request keeps: credited stretches in order and disjoint, each matching a row the person had, one slot for each day and task |
| `Presence.RunKeepsInv` | `apps/accounts/presence.py:209-305` | the same over every interleaving, with slots and sign-ins balanced against the credits |
| `Presence.ReachableInv` | `apps/accounts/presence.py:433-442` | and from the empty ledger |
| `Presence.CreditsAreDisjoint` | `apps/accounts/presence.py:433-442` | credited stretches never overlap, and their seconds together fit between the first and the last time the person was seen |
| `Presence.Conservation` | `apps/accounts/presence.py:464-501` | once requests have finished, the seconds in all slots equal the seconds credited, and equal those on all sign-ins plus those credited with none |
| `Presence.EveryFigureIsItsCredits` | `apps/accounts/presence.py:464-501` | at any moment any selection of slots holds exactly the credits that reached them and each sign-in exactly its own |
| `PresenceReader.AloneIsAtomic` | `apps/accounts/presence.py:414-449` | a beat whose statements nothing interrupts ends where the program order says, with nothing owed |
| `PresenceReader.SignInAloneIsAtomic` | `apps/accounts/presence.py:209-248` | the same for a sign-in |
| `PresenceReader.SignOutAloneIsAtomic` | `apps/accounts/presence.py:261-305` | the same for a sign-out, whose session ends beside the credit |
| `PresenceReader.UpsertTotal` | `apps/accounts/presence.py:495-501` | updating or inserting a slot moves each selected total by exactly the seconds added |
| `PresenceReader.FreshWriteNeverJumps` | `apps/accounts/presence.py:554-586` | any write that saw the current row and leaves nothing pending keeps every figure of every period |
| `PresenceReader.FreshBeatNeverJumps` | `apps/accounts/presence.py:554-586` | for every period and task, what a read shows just before a beat that saw the current row equals what it shows just after |
| `PresenceReader.FreshSignOutNeverJumps` | `apps/accounts/presence.py:261-305` | the same for a sign-out, after which nothing is pending |
| `PresenceReader.WriteMovesTotal` | `apps/accounts/presence.py:554-566` | any write, by a beat, a sign-in or a sign-out, moves the total by what it credits and by what it leaves pending in place of what was |
| `PresenceReader.SignOutKeepsTotalIff` | `apps/accounts/presence.py:261-305` | a sign-out keeps the total exactly when it credits what was pending, whichever row it loaded |
| `PresenceReader.BeatKeepsTotalIff` | `apps/accounts/presence.py:554-566` | whatever row the request loaded and whatever was written since: the total over any period moves by what the beat credits less what was pending, and stands still exactly when the two are equal |
| `PresenceReader.BeatKeepsTaskIff` | `apps/accounts/presence.py:554-586` | the same for each task, with the labels of both rows |
| `PresenceReader.StaleBeatDropsPending` | `apps/accounts/presence.py:436-441` | a beat whose person was seen again since it loaded the row lowers the total by exactly what was pending |
| `PresenceReader.StaleBeatExample` | `apps/accounts/presence.py:436-441` | two requests that loaded one beat, and a minute lost |
| `PresenceReader.ClearedPageJumpsUp` | `apps/accounts/presence.py:297-298` | a run in which a losing sign-out clears the page, the read shows nothing pending, and the next beat raises the total by a minute |
| `PresenceReader.PayingKeepsAccounted` | `apps/accounts/presence.py:464-501` | the statements that write a credit neither make nor lose seconds: stored and outstanding together stay |
| `PresenceReader.FreshBeatAccounts` | `apps/accounts/presence.py:434-449` | a beat that saw the current row raises stored and outstanding together by exactly what was pending, while a read before its credit is written misses just that |
| `PresenceReader.PresenceService.CreditPresenceTime` | `apps/accounts/presence.py:464-501` | adds to the sign-in and to the slot of the day and task, or does nothing |
| `PresenceReader.PresenceService.WriteNextBeat` | `apps/accounts/presence.py:414-449` | writes the beat and, if its compare-and-set won, credits the gap before it |
| `PresenceReader.PresenceService.TouchPresence` | `apps/accounts/presence.py:366-411` | a beat stores what it names, as `PresenceHistory.RunTells` says; an unnamed page or session keeps the stored one |
| `PresenceReader.PresenceService.RecordLogin` | `apps/accounts/presence.py:209-248` | records the sign-in and credits the beat before it |
| `PresenceReader.PresenceService.RecordLogout` | `apps/accounts/presence.py:261-305` | credits the last beat, clears the page, ends the sign-in once |
| `PresenceHistory.RunTells` | `apps/accounts/presence.py:366-461` | after any interleaving the stored row is the page, the action and the sign-in last named and the instant last seen; the credits are those of the requests that won, each worth its whole seconds, or thirty past the idle threshold, on the page and sign-in its row named |
| `PresenceHistory.EveryRowIsTold` | `apps/accounts/presence.py:401-407` | every row a request can have loaded is what the requests up to some point named |
| `PresenceHistory.NamedBeatIsCredited` | `apps/accounts/presence.py:401-449` | the gap after a beat that named a tracked page, an action and a sign-in is credited to those three, from that beat on, by any request that loaded it and wins |
| `PresenceHistory.UnnamedBeatKeepsNames` | `apps/accounts/presence.py:401-407` | a beat that names nothing leaves what was named before |
| `PresenceHistory.RunTellsSignIns` | `apps/accounts/presence.py:209-302` | in any run each sign-in says when it was made, ends at the first sign-out that names it, and was last active at the end of the last stretch written to it |
| `PresencePanel.ShareMinutes` | `apps/accounts/presence.py:536-551` | shared minutes sum to the total's whole minutes; each is the floor or one more; whole tasks are never bumped; every bumped task comes before every unbumped one in the order of what is left over |
| `PresencePanel.SpareFits` | `apps/accounts/presence.py:545-549` | the spare minutes are never more than the tasks with seconds left over |
| `PresencePanel.ShareIsUnique` | `apps/accounts/presence.py:536-551` | those demands leave one answer |
| `PresencePanel.PeriodFigures` | `apps/accounts/presence.py:698-732` | the Duration column adds up to the person's own whole minutes |
| `PresencePanel.FileGains` | `apps/accounts/presence.py:814-858` | filing a person adds exactly them, their minutes and their seconds to the table |
| `PresencePanel.PresenceGroups` | `apps/accounts/presence.py:803-872` | the groups partition the people, each under the heading their role and line name, and the headings add up to the panel total at lines 1067-1072 |
| `PresencePanel.PanelFigures` | `apps/accounts/presence.py:974-1072` | from task seconds to the panel: all task minutes, all people's minutes, all headings and the total are one number, everybody's own whole minutes added up |
| `PresencePanel.SpareGoesToTheFirst` | `apps/accounts/presence.py:544-551` | a task gets a spare minute exactly when fewer tasks have more left over, or as much and are longer, or are the same and come earlier, than there are minutes to spare |
| `PresencePanel.EveryoneStands` | `apps/accounts/presence.py:828-856` | a lead heads their own group, an officer is a member of their own lead's, one nobody leads stands with the others like them, everyone else with their role; and nobody stands in two groups |
| `PresencePanel.OfficerStandsWithTheirLead` | `apps/accounts/presence.py:828-845` | an officer stands in the group their own lead heads, whenever the lead is in the table |
| `Calendar.BoundsMeetTheConstraint` | `apps/acting/models.py:49-54` | the bounds of a month are dates, in order, and the last is the day before the next month, across year ends and leap years |
| `Calendar.SharedDaySameMonth` | `apps/acting/models.py:170-187` | two whole months that share a day are one month |
| `Calendar.MonthLength` | `apps/acting/services.py:43-48` | a month has as many days as the count of days puts between its first and the first of the next |
| `Calendar.NextDayIsTheNextNumber` | `apps/acting/services.py:43-48` | the next day is the next number, across months, years and leap days |
| `Calendar.AddDaysAddsToTheNumber` | `apps/acting/lifecycle.py:44-45` | days later is that many numbers later |
| `Calendar.EarlierIffSmaller` | `apps/acting/services.py:320-324` | dates are ordered as their numbers, and no two share one |
| `Acting.MonthOptions` | `apps/acting/services.py:61-78` | the loop with a running year and month lists this month and the next eleven |
| `Acting.AcceptedByDistance` | `apps/acting/services.py:317-325` | a month is accepted exactly when it is a month between this one and eleven ahead |
| `Acting.AcceptsExactlyWhatItLists` | `apps/acting/services.py:317-325` | the months the server accepts are exactly those it lists, with the same bounds |
| `Acting.StateIsTheFilter` | `apps/acting/models.py:63-78` | the query filters agree with the state of a row |
| `Acting.LatestEndIsLatest` | `apps/acting/services.py:661-673` | the hint's value is no earlier than the end of any standing appointment of the person |
| `Acting.LatestEndIsSomebodys` | `apps/acting/services.py:661-673` | and is the end of one of them |
| `Acting.StepKeepsTable` | `apps/acting/models.py:150-189` | every appointment, cancellation, change of month and stamp keeps whole months and no two standing appointments that clash, whatever its queries had read |
| `Acting.RunKeepsTable` | `apps/acting/services.py:350-574` | the same over every run, with conflict checks that read an older table |
| `Acting.SyncedAgreesIff` | `apps/acting/services.py:661-673` | a hint refresh writes the right hint exactly when, since its query read the table, nobody gave the person a later end or took away the one it read |
| `Acting.StepHintsAgreeIff` | `apps/acting/services.py:350-574` | where the hints agreed, they agree after any call exactly when that call was not overtaken in this way |
| `Acting.RunKeepsHints` | `apps/acting/services.py:661-673` | in any run without overtaken calls every hint is the latest standing end |
| `Acting.PersonSerialIsFresh` | `apps/acting/services.py:661-673` | a call that read everything committed for its person is not overtaken, whatever others do |
| `Acting.LostHintExample` | `apps/acting/services.py:661-673` | a cancelled October crossing an appointment for November: the hint is lost, and the lookup finds nobody all November |
| `Acting.NeverTwoActive` | `apps/acting/models.py:170-187` | in any run two appointments of one person, or of one seat and kind, are never active on one day |
| `Acting.AttachIsTheFullLookup` | `apps/acting/services.py:773-799` | in any run without overtaken calls the hint equals the latest standing end, and stopping at it finds the person's one active appointment exactly as the full lookup does |
| `Acting.SweepGrantsNothing` | `apps/acting/lifecycle.py:1-14` | a sweep changes nobody's state on any day, and leaves every hint right exactly when those it does not refresh were right |
| `Acting.SweepRepairsHints` | `apps/acting/lifecycle.py:103-129` | a sweep makes right the hint of everybody whose appointment it records as ended, and leaves every other hint as it was, on any table |
| `Acting.SweepIsIdempotent` | `apps/acting/lifecycle.py:12-14` | a second sweep the same day with nothing in between records and writes nothing |
| `Acting.StampsAreIndependent` | `apps/acting/lifecycle.py:28-31` | recording one kind of transition never makes another due or not due |
| `Acting.ActingService.SyncHint` | `apps/acting/services.py:661-673` | one person's hint becomes the latest standing end of the table that was read, no other's changes |
| `Acting.ActingService.MakeAppointment` | `apps/acting/services.py:350-399` | refusals in order, the conflict check and the insert, the hint |
| `Acting.ActingService.CancelAppointment` | `apps/acting/services.py:452-499` | an upcoming or active appointment is cancelled and the hint recomputed |
| `Acting.ActingService.StampListed` | `apps/acting/lifecycle.py:34-40` | one listed row in its own transaction: only its cancellation and its stamp are looked at again |
| `Acting.ActingService.MoveAppointment` | `apps/acting/services.py:502-574` | only an upcoming appointment moves; the same month changes nothing; the reminder is due again |
| `Acting.ActingService.Record` | `apps/acting/lifecycle.py:43-129` | on any table, the loop over the listed ids stamps exactly the due rows once each and counts them, and refreshes the hints of those whose end it records |
| `Acting.ActingService.Sweep` | `apps/acting/lifecycle.py:28-31` | on any table the three loops together record every transition that was due at the start and refresh the hints of the ended |
| `Acting.ActingService.Capacity` | `apps/acting/services.py:773-789` | the hint first, the table only when the hint reaches today |
| `ActingRules.AppointedIff` | `apps/acting/services.py:317-400` | an appointment is made exactly when it is allowed, for this month or one of the next eleven, with neither the person nor the seat taken that month in the table read or the table written; then it is one new row with its fields, and otherwise nothing changes |
| `ActingRules.CancelledIff` | `apps/acting/services.py:452-499` | a cancellation is accepted exactly when allowed, for a standing appointment that has not ended; then that row alone stops standing |
| `ActingRules.MovedIff` | `apps/acting/services.py:502-574` | an appointment is moved exactly when allowed, standing, not begun, to a month in reach that is its own or free of everybody else |
| `ActingRules.MovedRow` | `apps/acting/services.py:548-549` | then it lies in the new month, its reminder is due again, and nothing else about the rows changed |
| `ActingRules.StampSets` | `apps/acting/lifecycle.py:34-55` | a stamp records its own transition on a standing row and nothing else |
| `ActingRules.OthersKeepTheirHint` | `apps/acting/services.py:391` | no call writes the hint of anybody it is not about |
| `ActingRules.DueByDays` | `apps/acting/lifecycle.py:43-101` | by the count of days: reminders from three days to one day before the start, starts from the first day to the last, ends after the last |
| `ActingSweep.RunOfRow` | `apps/acting/services.py:518-544` | what a row can become in any run: once begun its dates stay, cancellations and stamps stay, and only moving takes a reminder's stamp back |
| `ActingSweep.StampedWasDueIff` | `apps/acting/lifecycle.py:34-101` | a row that was listed and is stamped later is still due then exactly unless it is a reminder whose month was moved out of the range; starts and ends never are |
| `ActingSweep.StampedOnce` | `apps/acting/lifecycle.py:10-14` | whatever sweeps interleave, a start and an end are stamped once in any run, and a reminder at most once more than the row is moved |
| `ActingSweep.MovedReminderExample` | `apps/acting/lifecycle.py:43-51` | an October listed for its reminder, moved to December and stamped: December is never reminded |
| `Closure.StepFollows` | `apps/activities/closure_services.py:548-570` | every locked act, and every move by another service, follows the order of closings and reopenings |
| `Closure.RunFollows` | `apps/activities/closure_services.py:548-753` | the same over every run |
| `Closure.StrictTurns` | `apps/activities/closure_services.py:729-753` | from the first closing on, closings and accepted reopenings strictly take turns, whoever calls and however stale the eligibility check, while no other service takes the activity out of "closed" |
| `Closure.OneReopeningPerClosing` | `apps/activities/closure_services.py:729-753` | between two accepted reopenings there is always a closing, whatever other services do |
| `Closure.ReopenAcceptedIff` | `apps/activities/closure_services.py:719-753` | in any run a reopening is accepted exactly when the work reached the end, the last closing was not reopened, and no reopening carries the instant of that closing |
| `Closure.SameInstantIsRefused` | `apps/activities/closure_services.py:743-749` | a run in which that last clause refuses a reopening |
| `Closure.ClosedOncePerClosing` | `apps/activities/closure_services.py:554-564` | the timeline only grows and holds one "Closed" for each time the activity became closed |
| `Closure.DoubleCloseIsOne` | `apps/activities/closure_services.py:549-567` | a second caller that also passed the check gets the first one's record and changes nothing |
| `Closure.ActivityRow.CloseActivity` | `apps/activities/closure_services.py:528-640` | authority, then eligibility, then the locked act and its timeline event |
| `Closure.ActivityRow.ReopenActivity` | `apps/activities/closure_services.py:697-805` | the two gates and the whole effect on status, record and timeline, as `ClosureHistory.ReopeningLeaves` says |
| `ClosureHistory.ReopeningLeaves` | `apps/activities/closure_services.py:755-805` | an accepted reopening for one of the four invalidating categories returns the work, for any other leaves it verified; record, reopenings and timeline follow; a refused one changes nothing |
| `ClosureHistory.ClosingLeaves` | `apps/activities/closure_services.py:528-640` | which answer a closing gets, and what one that takes effect leaves |
| `ClosureHistory.HistoryDecides` | `apps/activities/closure_services.py:528-805` | after any run the status is what the last act that took effect left, the record the last closing, marked if reopened since, and the timeline all of them |
| `ClosureHistory.ReturnedWorkWaits` | `apps/activities/closure_services.py:768-786` | after a reopening that returns the work no further one is accepted until somebody moves or closes it |
| `Blockers.WantedIsDistinct` | `apps/activities/closure_services.py:63-71` | no requirement is asked for twice |
| `Blockers.SpecsAreTheUnmetRules` | `apps/activities/closure_services.py:232-238` | a pair is wanted exactly when its rule is unmet and applies |
| `Blockers.EligibleIffOnlyAnalyticsIsLeft` | `apps/activities/closure_services.py:438-459` | an activity may close exactly when nothing but unpublished analytics is on its list |
| `Blockers.ReconcileBlockers` | `apps/activities/closure_services.py:134-150` | the kept row of every wanted key is the oldest; the rest is stale; what is missing is what no row has |
| `Blockers.ExactlyOneRowPerRequirement` | `apps/activities/closure_services.py:360-388` | with nothing written in between, the activity has one row for each unmet requirement and no other, the oldest existing one where there was one |
| `Blockers.EvaluatingTwiceIsOnce` | `apps/activities/closure_services.py:363-366` | evaluating an unchanged activity again writes no row |
| `Blockers.OneRowEachIff` | `apps/activities/closure_services.py:360-388` | whatever was written between the reading and the writing: one row for each requirement is left exactly when what was written keeps every kept key once and adds none |
| `Blockers.CrossedEvaluations` | `apps/activities/closure_services.py:187-209` | two writers that read the same rows leave two rows for every requirement that was missing, and none if nothing was |
| `Blockers.NextEvaluationRepairs` | `apps/activities/closure_services.py:134-150` | the next evaluation that nothing crosses leaves one row for each requirement, whatever came before |
| `Blockers.OthersUntouched` | `apps/activities/closure_services.py:153-210` | a batch leaves the rows of activities outside it alone |
| `Blockers.BatchThenOne` | `apps/activities/closure_services.py:187-209` | adding an activity to a batch is evaluating it after the batch, with nothing in between |
| `Blockers.BatchIsOneByOne` | `apps/activities/closure_services.py:153-210` | one transaction for a whole batch ends in the same checklists, rows and keys as evaluating each activity alone |
| `Blockers.CrossedBatchIsOneByOne` | `apps/activities/closure_services.py:153-210` | a batch that something crosses does to each activity what evaluating it alone by the rows the batch read would do |
| `Blockers.BeyondIsTheRest` | `apps/activities/closure_services.py:417-423` | reading beyond the last key of a batch reads exactly what is left |
| `Blockers.ClosureDesk.Evaluate` | `apps/activities/closure_services.py:360-388` | the state evaluated by the rows that were read, and one blocker for each requirement in rule order, kept or created |
| `Blockers.ClosureDesk.PersistBatch` | `apps/activities/closure_services.py:153-210` | the state of the batch by the rows that were read, and the three counts it returns |
| `Blockers.ClosureDesk.RefreshOpen` | `apps/activities/closure_services.py:402-435` | with nothing in between, the keyset loop terminates, visits each open activity once and ends where evaluating each alone in key order ends, for every positive batch size; a batch size of zero visits none |
| `BlockerRules.WantedIff` | `apps/activities/closure_services.py:63-71` | which reason and which role each unmet fact gives, the two finance facts only where money moved |
| `BlockerRules.ListedInOrder` | `apps/activities/closure_services.py:63-71` | and in which order |
| `BlockerRules.MayCloseIff` | `apps/activities/closure_services.py:438-454` | an activity may close exactly when all that is left to do is to publish its analytics |
| `BlockerRules.EvaluatedAllSettles` | `apps/activities/closure_services.py:360-388` | evaluating any different activities in turn leaves each with its facts on its checklist and one row for each unmet fact and no other; activities not evaluated keep checklist and rows |
| `BlockerRules.BatchSettles` | `apps/activities/closure_services.py:153-210` | so does one transaction over a batch |
| `BlockerRules.RefreshSettles` | `apps/activities/closure_services.py:402-435` | the scheduled refresh does so for every open activity and touches no other |
| `BlockerRules.CountsAddUp` | `apps/activities/closure_services.py:187-210` | the rows a batch says it added and removed are what the table gained and lost |
| `BlockerRules.ChangesCounted` | `apps/activities/closure_services.py:163-181` | the checklists it says it wrote are the activities that had none or another |
| `Reporting.TeamKeepsOneLead` | `apps/accounts/supervisor_service.py:283-387` | configuring a team keeps one lead for each officer |
| `Reporting.ManagedKeepsOneLeadIff` | `apps/accounts/supervisor_service.py:417-500` | configuring managed people keeps it exactly unless an applied call is for somebody who holds Programme Lead, manages in another role, and selects an officer another lead has |
| `Reporting.LeadManagesAsATeam` | `apps/accounts/supervisor_service.py:465-500` | for somebody who manages as a lead the call is exactly the team configuration |
| `Reporting.AssignKeepsOneLeadIff` | `apps/accounts/supervisor_service.py:248-262` | a reassignment, also an Admin override, gives an officer a second lead exactly when it writes one and another call gave them a different one since it read their line |
| `Reporting.TwoReassignmentsExample` | `apps/accounts/supervisor_service.py:248-262` | two reassignments of an officer without a lead that leave two |
| `Reporting.RunKeepsOneLead` | `apps/accounts/supervisor_service.py:283-292` | every run in which no reassignment is overtaken keeps one lead for each officer, when leads manage as leads or country directors |
| `Reporting.SerialRunKeepsOneLead` | `apps/accounts/supervisor_service.py:283-292` | calls that read the table they write to are never overtaken, so every such run keeps one lead |
| `Reporting.TwoLeadsExample` | `apps/accounts/supervisor_service.py:50-54` | two calls that leave an officer with two leads |
| `Reporting.TeamIsTheSelection` | `apps/accounts/supervisor_service.py:357-387` | which lines exist afterwards: the lead's team is the selection, the selected leave every other lead, no other line changes |
| `Reporting.AssignReplacesOneLine` | `apps/accounts/supervisor_service.py:246-262` | at most the line that was read goes and one comes; an officer keeps every line to non-leads and, unless overtaken, ends with the new lead alone |
| `Reporting.OversightKeptIff` | `apps/accounts/supervisor_service.py:253-257` | every Impact Assessment and Vice President row stays exactly unless the line the call replaces is one |
| `Reporting.OversightAlwaysKeptIff` | `apps/accounts/supervisor_service.py:248-257` | whichever line the query answers first, they stay exactly when the call is refused or none of the lines it may replace, other than to the new supervisor, is one |
| `Reporting.OversightLostExample` | `apps/accounts/supervisor_service.py:251-256` | giving an accountant a supervisor deletes a Vice President's oversight row |
| `Reporting.ReportingLines.AssignSupervisor` | `apps/accounts/supervisor_service.py:213-262` | the checks in order, and the replacement of whichever line the query for the present one answered first |
| `Reporting.ReportingLines.ConfigureProgramLeadTeam` | `apps/accounts/supervisor_service.py:283-387` | the checks in order, the deletions and the creations |
| `Reporting.ReportingLines.ConfigureManagedPeople` | `apps/accounts/supervisor_service.py:417-500` | the checks in order, the team configuration for a lead, the deletions and the creations |
| `ReportingRules.AssignmentIff` | `apps/accounts/supervisor_service.py:213-246` | a reassignment is accepted exactly when both people are there, they differ and the levels fit or an Admin asks; and which refusal is answered when |
| `ReportingRules.InLineIff` | `apps/accounts/supervisor_service.py:248-251` | the present line of an officer is to their leads, of a lead to their directors, of anybody else to whoever supervises them |
| `ReportingRules.AssignedLines` | `apps/accounts/supervisor_service.py:251-262` | which lines exist after an accepted reassignment: the answered line to somebody else is gone, the new one is there, every other is as it was |
| `ReportingRules.RefusedChangesNothing` | `apps/accounts/supervisor_service.py:213-246` | a refused call of any of the three leaves every line |
| `ReportingRules.TeamIff` | `apps/accounts/supervisor_service.py:283-337` | a team is accepted exactly when an Admin asks, for a lead who is there, and everybody selected is there, an officer and of the lead's country |
| `ReportingRules.ManagementRoleIff` | `apps/accounts/supervisor_service.py:50-54` | somebody manages in their active role if it manages, else in the first of their roles that does |
| `ReportingRules.ManageableIff` | `apps/accounts/supervisor_service.py:64-92` | whom somebody may manage in a role |
| `ReportingRules.ManagedIff` | `apps/accounts/supervisor_service.py:417-463` | managed people are accepted exactly when an Admin asks, for somebody who manages other than as a director, and everybody selected may be managed in that role |
| `ReportingRules.NobodyWhoManagesIsRefused` | `apps/accounts/supervisor_service.py:430-451` | and which refusal somebody who is not there or manages in no role gets |
| `ReportingRules.ManagedIsTheSelection` | `apps/accounts/supervisor_service.py:465-500` | afterwards the manager's people are the selection; a manager who is not one as a lead takes nobody from anybody |
| `Training.TrainedSchools` | `apps/activities/cluster_attendance.py:50-107` | exactly the asked schools with an own training, a register row or an array listing |
| `Training.TrainingCounts` | `apps/activities/cluster_attendance.py:517-581` | each asked school's count, and no entry that is zero or was not asked for |
| `Training.CountedIsTrained` | `apps/activities/cluster_attendance.py:517-523` | a school with a positive count is among the trained |
| `Training.DisagreeIff` | `apps/activities/cluster_attendance.py:571-580` | a trained school is counted zero times exactly when it is only in arrays and every such session is counted from rows of asked schools |
| `Training.ReadersAgree` | `apps/activities/cluster_attendance.py:517-523` | when arrays stay within registers, trained means a positive count |
| `Training.IndependentIff` | `apps/activities/cluster_attendance.py:570-575` | a count never depends on which other schools were asked for exactly when the array of every session with a register lists only schools the register has |
| `Training.DependsOnOthers` | `apps/activities/cluster_attendance.py:570-575` | otherwise asking for one more school lowers another's count |
| `TrainingCredits.TrainedIff` | `apps/activities/cluster_attendance.py:50-107` | a school is trained exactly when it has an own training, a register row or a place in an array that counts, each written out with its kind, status, year and deletion |
| `TrainingCredits.CountIsCredits` | `apps/activities/cluster_attendance.py:517-581` | a count is the number of own trainings, register rows and places in arrays of sessions the register does not speak for, each counted once |
| `PlanCounts.CountPlans` | `apps/activities/calendar_people.py:143-168` | one pass gives every tab its count, once for each activity; equal to the plan of the tab's ids whenever the blank id is harmless |
| `PlanCounts.IndexTabs` | `apps/activities/calendar_people.py:150-154` | the index holds, for each id, exactly the tabs that hold it |
| `PlanCounts.CountsAgree` | `apps/activities/calendar_scope.py:56-68` | a tab's count is the number of activities its plan selects |
| `PlanCounts.BlankMiscounts` | `apps/activities/calendar_people.py:162-167` | a tab holding the blank id counts a partner's activity that is not on its plan |
| `PlanCounts.OnePassIffHarmless` | `apps/activities/calendar_people.py:143-168` | the counts are the plan counts for all activities exactly when every tab with the blank id holds every id any tab holds; in particular when no tab has it |
| `PlanCounts.PlanCountIs` | `apps/activities/calendar_scope.py:56-68` | a plan counts, once each, the work of the staff the ids name and the partner work they monitor; a blank id is nobody's |

## Left out

Assumptions the code itself needs:

- Clocks are read in commit order and never run backwards; MFA calls for one account are serial (neither the cap nor the attempt counter is read under a lock); the idle threshold is at least the final beat.
- A refresh is one step, except in `RefreshRace`, which races requests for one token only: a replayed ancestor racing a rotation of the live tip is not modelled.
- Family ids are fresh and non-empty. A family id of "" would start a new family at the next rotation.
- Presence: a losing beat's failed compare-and-set and the write after it are one step.
- Closing and reopening are one step each, under the activity's row lock. Configuring a team or managed people is one step, in its transaction. The writes of an appointment, a cancellation, a change of month, a stamp, an evaluation or batch of blockers, a reassignment or a sign-in attempt are one step, on the table as it is then; what those calls read before may be older, and no assumption is made about it beyond what each row states.
- Closing is assumed to be the only way into "closed", as in the code. Reopening an activity that was never closed is not bounded, because the code does not bound it.
- Staff roles do not change while reporting lines do.

Weaker than the code, on purpose:

- Mfa.MfaService.VerifyCode: hashing and the authenticator's codes are uninterpreted, so RFC 6238 step windows are not modelled; digits are the ten ASCII ones, not every character Python calls a digit.
- Lockout.AccountRow.SignIn: starts with a known account; a missing email or password, `last_login_at`, alerts and the audit log are not modelled.
- Presence.RunKeepsInv: `online_since` is not modelled; page labels, untracked pages and the local calendar are parameters, and truncating labels to their columns belongs to them.
- PresencePanel.PresenceGroups: which rows stand in which group, not the order of rows and groups, their labels, or how many of a group are online.
- PresencePanel.PeriodFigures: takes the tasks in the order the table lists them.
- Acting.ActingService.Capacity: ends at the appointment; whether it is still valid, worked in, and of the active role is not modelled. The lookup takes the first active row in table order, which the proof shows to be the only one.
- Acting.ActingService.MakeAppointment: authority, eligibility and visibility are one answer the caller brings; months arrive as numbers, so parsing "2026-10" and the years Python's dates cannot hold are not modelled.
- Closure.ActivityRow.CloseActivity: authority and eligibility are answers the caller brings; the financial snapshot, the hash-chained audit entry, notifications and the analytics record are not modelled.
- Closure.ActivityRow.ReopenActivity: the `ia_verification_status` beside the status, the reversal of milestone credit and the analytics record are not modelled.
- Blockers.BatchIsOneByOne: keys of new rows come from one counter and rows have no timestamps, so equality is up to `created_at`, `last_evaluated_at` and the text of random ids; the derivation of the nine facts from related rows is not modelled.
- Training.TrainingCounts: asked schools are a set; the forms whose arrays Python does not filter, a subquery and a frozenset, are not modelled.
- PlanCounts.CountPlans: an id is blank or a number; trimming and text are not modelled.

Not modelled at all:

- Sending email, messages and notifications, audit writes, password hashing, JWT signing and secret sealing.
- Views, serializers, middleware, templates, label tables and the HR dashboard.
- `start_api_challenge` and `open_challenge`: token lookups with the same expiry test `verify` makes again.
- `set_invited_schools`, `confirm_attendance`, `release_school_invitations` and `sync_expected_participants`: row bookkeeping without a promise over runs.
- The acting policy and withheld-page tables: finite case splits.
- Financial years, costing and Core package credit, which other applications decide.
