# SmartRenew in Dafny

SmartRenew watches cloud reservations and GPU instances, works out which instances are paid
for, reminds operators before something expires, and guards its web login. This project models
its algorithmic and stateful parts and proves what they guarantee over all inputs and all runs.

| file | models |
|---|---|
| `GreedyTurn.dfy` | one Savings Plan's turn over the rates of its candidates: budget, tolerance, quality of the greedy choice, ties |
| `Coverage.dfy`, `CoverageFacts.dfy`, `CoverageFields.dfy` | the four-stage coverage allocator, what its stages add up to, and that told by the columns of its inputs |
| `CoverageAgreement.dfy`, `CoverageWitness.dfy`, `CoverageTies.dfy` | when the ties of the unstable sort cannot show in the outcome, and when they do |
| `Limiter.dfy`, `LimiterRuns.dfy` | the login limiter with its shared, pruned map, and whole runs of it |
| `Login.dfy`, `LoginRuns.dfy` | the login handler, and concurrent logins interleaved step by step |
| `Sessions.dfy` | the session store against a book that never forgets |
| `Reminder.dfy` | days left, crossed thresholds, reminder keys |
| `Store.dfy`, `Migration.dfy` | the tables and their transactions, and the rebuild of the notify log at start-up |
| `Scheduler.dfy`, `ReminderRuns.dfy` | the check cycles, and whole runs of the reminder protocol |
| `Sync.dfy`, `SyncFacts.dfy`, `SyncGpuFacts.dfy` | account synchronisation, its outcome per account in either table, and what readers can see meanwhile |
| `SqlTime.dfy` | timestamps as sortable text |
| `Sns.dfy` | cutting notification texts on character boundaries |

Code that changes things step by step is written as methods with loops, or as classes where the
source has objects, and each is proved against a function or relation over values; the lemmas are
about those. What comes from outside is a parameter: clock readings, fetch results, answers of
notifiers, refusals of the database, the password check. Where the source ranges over a Go map
the method picks any remaining key; where it sorts with the unstable library sort, only the
order of the result is relied on. A refused or failed transaction changes nothing.

Where a statement needs them, it assumes what AWS and the tables provide: instance IDs and plan
IDs are distinct, and rows are stored under their own ID.

## What the proofs show about the code

Some statements one would like to make are false of the code. Each has a lemma with the case, and
the condition under which the code meets it is proved, in both directions unless said otherwise.

- Ties. Within one plan's turn the unstable sort cannot change the amounts
  (`CoverageFacts.TiesDoNotMatter`). Over the whole analysis ties never show, on any fleet, if and
  only if no plan has one rate, which it can afford, for two types (`CoverageWitness.TiesNeverShowIff`).
  For a given fleet it is enough that this holds of the types in it: then every type gets the same
  number of instances of each kind of coverage, and every plan charges and leaves the same
  (`CoverageAgreement.OutcomesAgree`). That half goes one way, because on a small fleet a plan with
  commitment to spare can hide a tie. Where ties do show, even the number of instances on demand can
  depend on them (`CoverageTies.TiesCanDecideCoverage`).
- Eviction. The scan uses the empty string for "nothing found yet". What it may pick is determined
  exactly (`Limiter.PicksIsExact`): a least recently seen record, unless the empty key is the oldest
  unlocked one; then it may be any unlocked record, or none. An eviction is sure to drop the least
  recently seen records, and to make room if it can, if and only if the empty key is absent, locked,
  or preceded by enough unlocked records (`Limiter.IntendedIff`, and for runs
  `LimiterRuns.EvictionsAreIntendedIff`); otherwise a record seen later can go while the empty key's
  stays (`LimiterRuns.EmptyKeyShieldsItself`). Keys of user names begin with a prefix and are never
  empty.
- Attempts per window. In every run, an interval of one window's length admits `max` attempts for a
  key, and `max` more for each success and for each eviction of its record in it
  (`LimiterRuns.WindowBound`). Below capacity there are no evictions (`LimiterRuns.SlidingWindow`);
  a crowd of 49,999 other keys can cause one, for every `max` (`LimiterRuns.OverflowForgets`). That
  only successes add to `max` holds in every run in which at most n keys reserve within any one
  window if and only if n is below 50,000 (`LimiterRuns.SafeForKeysIff`). With evictions the allowance is an upper bound: a key need not use
  what an eviction gives it. The interval must be half-open (`LimiterRuns.ClosedWindowIsTooLong`).
  Lockouts hold in any case (`LimiterRuns.LockoutHolds`).
- Password checks per window. A login may wait between its reservation and its check, so the
  logins pending at the beginning of the interval count as well (`LoginRuns.ChecksAreBounded`);
  without them the bound is false (`LoginRuns.PendingLoginsMustCount`). If every login checks its
  password within d of its reservation, then intervals begun d after an instant hold no more checks
  than the window from that instant may admit attempts, in every run, if and only if the interval
  and d together fit the window (`LoginRuns.PromptlyBoundedIff`).
- Reminder keys. The configured reminders come exactly once each, whatever positive days are
  configured: each is marked in exactly one step if and only if some cycle on its day goes well
  (`ReminderRuns.ReminderIff`). That nothing else comes is certain exactly when some reminder day is
  30 or more, because the query looks at least 30 days ahead (`Reminder.KeysAreConfiguredIff`);
  otherwise a cycle that goes well on a day beyond the widest reminder adds a row for its level
  (`ReminderRuns.ExactlyTheConfiguredReminders`).
- Partial delivery. One notifier that delivers is enough to mark a batch, and one that failed then
  never gets it unless it delivered in an earlier cycle that was not marked
  (`ReminderRuns.FailedNotifierMissesOut`, `ReminderRuns.DeliveredByTheMark`). Every notifier gets
  every marked reminder exactly when each that fails in the cycle that marks had delivered before
  (`ReminderRuns.EveryNotifierIff`).
- GPU alerts. A comment promises one alert per instance while it stays uncovered
  (`scheduler/scheduler.go:183-184`). The log row is never removed, so an instance that is
  covered in between and uncovered again is not reported a second time
  (`ReminderRuns.SecondEpisodeIsSilent`). The promise holds for exactly the spells on demand that
  begin with no row of the instance in the log (`ReminderRuns.AlertsAfreshIff`).
- Migration. The look-up for an earlier migration reads the SQL text of indexes
  (`store/sqlite.go:147-155`), and the index behind a table constraint has none, so it never finds
  one (`Migration.LookUpNeverFires`) and the notify log is rebuilt at every start. That is harmless,
  crashes included (`Migration.MigrationKeepsRows`).
- Row IDs. A configured account is never seen empty as long as row IDs determine accounts
  (`SyncFacts.NeverSeenEmpty`), which they do exactly for account IDs without underscore
  (`SyncFacts.IdsDetermineAccounts`). The import accepts any account ID: imports under one can leave
  a configured account without rows if and only if that account is what precedes the first
  underscore (`SyncFacts.ImportCanEmptyIff`). The case takes a fetched row whose region or resource
  ID holds an underscore as well; fetch results are arbitrary here, while AWS regions hold none.
- Legacy timestamps. RFC 3339 texts are read back correctly but do not sort with canonical ones:
  only the dates decide (`SqlTime.LegacyTextDoesNotSort`). A canonical text and an RFC 3339 text in
  UTC sort as their instants do if and only if the dates differ or the canonical one has the earlier
  time of day (`SqlTime.LegacyTextSortsIff`).

The steps of the two run models are tied to the methods: a check cycle of the scheduler and a
request to the login handler do what the steps say (`ReminderRuns.PerformCheck`,
`ReminderRuns.PerformCheckGpu`, `LoginRuns.PerformLogin`).

## Model

| member | source | states |
|---|---|---|
| GreedyTurn.BudgetBound | provider/gpu_coverage.go:399-413 | the remaining commitment never goes negative or grows; 99.5% of the charge stays within the commitment; nothing is lost unless the tolerance was used, and then nothing is left |
| GreedyTurn.NegativeCommitment | provider/gpu_coverage.go:375-413 | a plan with a negative commitment covers nothing |
| GreedyTurn.ToleranceIsLast | provider/gpu_coverage.go:399-411 | the tolerance covers at most one instance per plan, the last one covered |
| GreedyTurn.PassedOver | provider/gpu_coverage.go:393-414 | a candidate with a positive rate is passed over only if less than 99.5% of its rate is left when the turn ends |
| GreedyTurn.GreedyQuality | provider/gpu_coverage.go:387-414 | in descending order, leaving out one affordable candidate means more than commitment/1.995 was charged |
| GreedyTurn.HalfOptimal | provider/gpu_coverage.go:387-414 | no selection of candidates that fits the commitment costs more than 1.995 times the charge |
| GreedyTurn.UnsortedTurnCanWasteTheCommitment | provider/gpu_coverage.go:387-392 | without the descending order that guarantee fails |
| GreedyTurn.DescendingOrderIsUnique | provider/gpu_coverage.go:388-392 | a multiset of rates has one descending order |
| Coverage.AssignBlocks | provider/gpu_coverage.go:328-337 | the loop computes the block stage, whose meaning is BlockStageExact |
| Coverage.PoolReservations | provider/gpu_coverage.go:344-353 | the loop computes the pool, whose meaning is PoolHoldsTotals and PoolIsNamedAfterFirst |
| Coverage.AssignReserved | provider/gpu_coverage.go:354-367 | the loop with its decreasing pool computes the reserved stage, whose meaning is ReservedStageExact and, per instance type and region, CoverageFields.ReservationsByTypeAndRegion |
| Coverage.CollectCandidates | provider/gpu_coverage.go:377-386 | the loop for either plan type collects the candidates, whose meaning is OrderExact |
| Coverage.SortDescending | provider/gpu_coverage.go:388-392 | the array is a permutation of what it was, in descending order of the key |
| Coverage.PlayOrder | provider/gpu_coverage.go:393-414 | the loop with its shrinking commitment takes exactly the candidates the turn takes and leaves what it leaves |
| Coverage.PlayTurn | provider/gpu_coverage.go:375-414 | one plan's turn is a turn in some descending order of its candidates |
| Coverage.PlayTurns | provider/gpu_coverage.go:369-415 | the plans of one type take their turns in list order |
| Coverage.BuildReports | provider/gpu_coverage.go:463-490 | the loop computes the report, whose meaning is ReportIsComplete and ReportCountsAddUp |
| Coverage.AnalyzeCoverage | provider/gpu_coverage.go:320-491 | the analysis is an outcome of blocks, reservations, EC2 Instance plans and Compute plans in that order, reported for GPU instances |
| CoverageFacts.BlockStageExact | provider/gpu_coverage.go:328-337 | exactly the instances targeting an active block are covered by it |
| CoverageFacts.PoolHoldsTotals | provider/gpu_coverage.go:344-353 | the pool of a key holds the sum of all its counts |
| CoverageFacts.PoolIsNamedAfterFirst | provider/gpu_coverage.go:344-353 | the pool of a key carries the ID of its first reservation |
| CoverageFacts.ReservedStageExact | provider/gpu_coverage.go:354-367 | an uncovered instance gets a reservation exactly when fewer of its key wait before it than are available |
| CoverageFacts.OrderExact | provider/gpu_coverage.go:377-392 | a turn visits each eligible uncovered instance exactly once and no others |
| CoverageFacts.Precedence | provider/gpu_coverage.go:328-461 | what covers an instance in the end: its block, else a reservation by its rank, else a plan that may pay for it at that plan's rate, else nothing |
| CoverageFacts.ReservedConservation | provider/gpu_coverage.go:339-367 | per type and region, the instances covered by reservations number the smaller of pooled count and demand left by blocks |
| CoverageFacts.Maximality | provider/gpu_coverage.go:369-461 | an instance uncovered in the end could not have been paid for by any eligible plan with a rate for it, after all later turns |
| CoverageFacts.OnDemandIsUnavoidable | provider/gpu_coverage.go:320-491 | an instance reported on demand has no block, no reservation left for its rank, and no eligible plan with enough left |
| CoverageFields.ReservationsByTypeAndRegion | provider/gpu_coverage.go:339-367 | for every type and region, the instances of that type and region covered by reservations number the sum of the counts bought for it, or all that target no active block when those are fewer |
| CoverageFields.CoveredBy | provider/gpu_coverage.go:328-461 | by its columns: an instance is covered by the active block it names, else by the first reservation of its type and region if more were bought than instances of that kind come before it, else by a plan on Linux of its family and region, or a Compute plan, at the listed rate, else not |
| CoverageFields.TurnsInOrder | provider/gpu_coverage.go:369-461 | turns belong to the EC2 Instance plans in list order, then the Compute plans in list order, and to no others |
| CoverageFields.UncoveredOnlyIfTooDear | provider/gpu_coverage.go:369-461 | on the final assignment, a plan charges what its commitment allows, and every plan that may pay for an uncovered instance has less than 99.5% of its rate to spare |
| CoverageFacts.PlanCharges | provider/gpu_coverage.go:369-461 | on the final assignment, a plan's charges keep its budget and are within a factor of 1.995 of any selection that fits it |
| CoverageFacts.TiesDoNotMatter | provider/gpu_coverage.go:388-392 | two descending orders of one turn leave the same amount and charge the same rates |
| CoverageFacts.ReportIsComplete | provider/gpu_coverage.go:463-490 | the report lists all GPU instances, once each, in input order, with their own columns, the account's and their coverage |
| CoverageFacts.ReportCountsAddUp | provider/gpu_coverage.go:463-490 | the counts per kind of coverage are those of the assignment and add up to the GPU instances |
| CoverageFacts.FamilyOfSizedType | provider/gpu_coverage.go:42-55 | the family of an ordinary type is what precedes its last dot |
| CoverageFacts.FamilyOfUltraServer | provider/gpu_coverage.go:42-55 | the family of an UltraServer type is what stands between its prefix and count |
| CoverageFacts.GpuByFamily | provider/gpu_coverage.go:26-59 | an instance of an ordinary type is reported if and only if what stands before the last dot is a GPU family |
| CoverageAgreement.OutcomesAgree | provider/gpu_coverage.go:369-461 | if no plan has one affordable rate for two types of the fleet it may pay for, any two outcomes give each type the same number of instances of each kind of coverage, leave each plan the same and charge every plan ID the same |
| CoverageAgreement.ReportsAgree | provider/gpu_coverage.go:463-490 | outcomes that agree per type are reported with the same count of every kind of coverage |
| CoverageWitness.TiesNeverShowIff | provider/gpu_coverage.go:369-461 | for any list of plans: all outcomes on all fleets agree if and only if no plan has one affordable rate for two types |
| CoverageTies.TiesCanDecideCoverage | provider/gpu_coverage.go:369-461 | a tie can decide not only which type is covered but how many instances are |
| Limiter.LoginLimiter.constructor | auth/ratelimit.go:28-41 | an empty limiter; unusable settings become 5 attempts in 15 minutes |
| Limiter.LoginLimiter.Reserve | auth/ratelimit.go:52-79 | one reservation is a prune followed by one attempt on the key's record |
| Limiter.LoginLimiter.Succeed | auth/ratelimit.go:82-86 | the key's record is gone, nothing else changed |
| Limiter.LoginLimiter.PruneLocked | auth/ratelimit.go:88-119 | terminates; stale records go, then what scans pick, one by one, until the map is below capacity or a scan picks none; PruneMeans says what that amounts to |
| Limiter.PruneMeans | auth/ratelimit.go:24-26 | never a locked record and never more than needed goes; unless the empty key spoils it, the least recent ones go and the map stays at capacity only if all are locked |
| Limiter.IntendedIff | auth/ratelimit.go:98-118 | every way the eviction loop can go drops the least recent records and makes room if it can, if and only if no unlocked empty key is left with the map at capacity |
| Limiter.LoginLimiter.DropStale | auth/ratelimit.go:89-97 | exactly the stale records go |
| Limiter.LoginLimiter.FindOldest | auth/ratelimit.go:105-116 | the scan picks what some order of the map allows, whose meaning is PicksIsExact |
| Limiter.PicksIsExact | auth/ratelimit.go:101-118 | the keys some scan order picks: none if all records are locked; any unlocked one or none if the empty key is the oldest; else exactly the least recent ones |
| LimiterRuns.KeysAreIndependent | auth/ratelimit.go:52-97 | below capacity every answer is that of a limiter serving the key alone |
| LimiterRuns.ReserveReads | auth/ratelimit.go:52-79 | below 50,000 keys, by the columns of the record: when an attempt is refused, what is announced, and what the record becomes |
| LimiterRuns.OthersAfterReserve | auth/ratelimit.go:88-97 | of the other records exactly those locked or seen within the last window stay |
| LimiterRuns.RecordsAreGood | auth/ratelimit.go:58-78 | in every run, overflow included, for every key: a locked record has count 0 and is locked for the window after it was last seen; an unlocked one has counted 1 to max |
| LimiterRuns.WindowBound | auth/ratelimit.go:43-119 | in every run any half-open interval of one window admits at most max attempts per key, and max more per success and per eviction of the key's record |
| LimiterRuns.SlidingWindow | auth/ratelimit.go:43-97 | below capacity no record is evicted, so only successes add to max |
| LimiterRuns.LockoutHolds | auth/ratelimit.go:63-76 | in every run, overflow included, a refusal holds for the time it announces unless the key succeeds |
| LimiterRuns.WaitingPays | handler/auth.go:194-198 | waiting the announced whole seconds without another attempt gets the next one admitted |
| LimiterRuns.RetryAfterSeconds | handler/auth.go:194-198 | the announced seconds exceed the time left, by no more than one |
| LimiterRuns.EarlyRetryIsRefused | handler/auth.go:194-198 | in every run, a refused client that comes back more than a second before the announced time is up is refused again, unless it succeeded in between |
| LimiterRuns.MapIsBounded | auth/ratelimit.go:24-26 | after a reservation the map is within capacity, or all other records are locked, or the empty key kept the scan from picking one |
| LimiterRuns.ClosedWindowIsTooLong | auth/ratelimit.go:63-76 | for every max, a run below capacity with 2 * max attempts in a closed interval |
| LimiterRuns.OverflowForgets | auth/ratelimit.go:98-118 | for every max and key, a run with 49,999 other keys in which the key is evicted and admitted max + 1 times in one window |
| LimiterRuns.SafeForKeysIff | auth/ratelimit.go:24-119 | that only successes add to max holds in all runs with at most n reserving keys in any one window, if and only if n is below the capacity |
| LimiterRuns.EvictionsAreIntendedIff | auth/ratelimit.go:98-118 | in a run every eviction is sure to drop the least recent records and to make room if it can, if and only if no reservation finds the map spoiled by an unlocked empty key; never without that key |
| LimiterRuns.EmptyKeyShieldsItself | auth/ratelimit.go:104-117 | for every max, a run in which the oldest record, under the empty key, stays and a later one is evicted |
| Login.Handler.ReserveBoth | handler/auth.go:150-167 | a refusal by address leaves the user limiter alone; a refusal by user keeps the address attempt counted |
| Login.NamesShareKeys | handler/auth.go:163-163 | two names share the attempts of one user if and only if they are normalised alike, and no key is empty |
| Login.Handler.Login | handler/auth.go:132-191 | which response a request gets, and that only a complete login releases both attempts |
| Login.Handler.Authenticate | handler/auth.go:169-191 | password check, session, release, in that order |
| LoginRuns.AttemptsAreConserved | handler/auth.go:150-175 | checks run in an interval and logins pending at its end are attempts admitted in it and logins pending at its beginning |
| LoginRuns.ChecksAreBounded | handler/auth.go:150-191 | in every run, password checks per user name in one window are bounded by what the window may admit and the logins pending at its beginning |
| LoginRuns.PromptChecksAreBounded | handler/auth.go:163-175 | if every login checks its password within d of its reservation, the last part of a window, from d on, holds no more checks than the window may admit |
| LoginRuns.PromptBoundIsTight | handler/auth.go:163-175 | for every max and d, a run below capacity of prompt logins that exceeds the bound as soon as the interval reaches past the window |
| LoginRuns.PromptlyBoundedIff | handler/auth.go:150-175 | prompt checks are bounded by the window's allowance in every run if and only if delay and interval together fit the window, or the interval is empty |
| LoginRuns.PendingLoginsMustCount | handler/auth.go:163-169 | for every max, a run below capacity that exceeds the bound without the pending logins |
| LoginRuns.PerformLogin | handler/auth.go:132-191 | handling a request takes the actions of the run model in order, and the user limiter sees just their calls |
| Sessions.SessionStore.constructor | auth/session.go:37-46 | an empty store; an unusable lifetime becomes 12 hours |
| Sessions.SessionStore.Create | auth/session.go:52-69 | a session is created exactly when fewer unexpired ones exist than the cap |
| Sessions.SessionStore.Lookup | auth/session.go:72-87 | finds the session if it exists and has not expired, and drops it if it has |
| Sessions.SessionStore.Delete | auth/session.go:90-97 | only the named session goes |
| Sessions.SessionStore.Count | auth/session.go:100-105 | counts the unexpired sessions |
| Sessions.SessionStore.PruneLocked | auth/session.go:107-113 | exactly the expired sessions go |
| Sessions.PruningIsUnobservable | auth/session.go:52-113 | in every run the unexpired sessions are those of a book that never prunes, and the cap holds |
| Sessions.AnswersAreTheBooks | auth/session.go:52-113 | every answer is the one the book gives |
| Sessions.LookupFinds | auth/session.go:52-97 | in every run, a look-up finds a session if and only if a call created it under the token, none was created or deleted under it since, and its lifetime is not over |
| Sessions.CountsAreLive | auth/session.go:52-105 | in every run, the count is the number of tokens whose session has not expired, and creation fails exactly at 10,000 of them |
| Reminder.DaysUntil | model/reservation.go:127-137 | the days left, by truncating division and adjustment, are the days rounded up |
| Reminder.DaysLeftIsCeiling | model/reservation.go:119-126 | rounded up for either sign |
| Reminder.CrossedThreshold | model/reservation.go:98-117 | both loops compute, for all inputs, the threshold whose meaning is CrossedIsLeast |
| Reminder.CrossedIsLeast | model/reservation.go:90-97 | for positive reminder days the least one not below the days left, 0 exactly if there is none |
| Reminder.CrossedWhenOverdue | model/reservation.go:106-116 | overdue past every reminder day, the least of all is taken |
| Reminder.ThresholdsOnlyShrink | model/reservation.go:94-97 | a threshold once passed never returns |
| Reminder.NotifyKeysAreDistinct | model/reservation.go:75-88 | thresholds have distinct keys, and none reads like a level |
| Reminder.NotifyKeyReads | model/reservation.go:75-88 | a threshold reads as t and its decimal, otherwise the level is the key |
| Reminder.LevelIsByDays | model/reservation.go:151-162 | critical to 3 days, warning to 7, attention to 14, normal beyond, without gap |
| Reminder.InWindowIff | store/sqlite.go:315-322 | the window in days left: not over, and within 30 days or some reminder |
| Reminder.KeysAreConfiguredIff | config/config.go:296-304 | every alert carries a configured reminder if and only if some reminder day is 30 or more |
| Store.NewAlert | model/reservation.go:139-149 | days, level and threshold from one day count |
| Store.AlertReads | model/reservation.go:119-162 | what an alert says of the days left, rounded up, the level and the least reminder not below them |
| Store.CutIsSecond | store/sqlite.go:16-35 | a stored instant is the beginning of the second it falls in |
| Store.CutIsRead | store/sqlite.go:27-51 | reading the stored text gives just that |
| Store.UpsertWrites | store/sqlite.go:212-228 | what an upsert leaves, column by column: expiry to the second, status and details new, the rest as first inserted |
| Store.GpuUpsertWrites | store/sqlite.go:447-458 | how an instance is covered is new, the rest as first inserted |
| Store.QueryReaches | store/sqlite.go:315-336 | a row is in the result if and only if it has an expiry ahead within 30 days or some reminder and none of the five inactive states; in order of expiry |
| Store.Database.Upsert | store/sqlite.go:212-228 | one upsert, or nothing; what it leaves, column by column, is UpsertWrites |
| Store.Database.ReplaceAccount | store/sqlite.go:252-268 | delete and re-insert as one step, or nothing |
| Store.Database.PruneAccounts | store/sqlite.go:511-544 | rows of unlisted accounts go, table after table, and are counted; an empty list is a no-op, one beyond the cap an error |
| Store.Database.QueryExpiring | store/sqlite.go:316-328 | exactly the rows in the window with an active status, once each, soonest first; which those are by their columns is QueryReaches |
| Store.Database.GetAlerts | store/sqlite.go:315-336 | one alert for each row of the query, in its order |
| Store.Database.HasNotified | store/sqlite.go:344-350 | whether the exact reminder is in the log, or that the log cannot be read; that this filters exactly is ReminderRuns.DueUntilMarked |
| Store.Database.MarkNotifiedBatch | store/sqlite.go:372-391 | all rows of the batch are added, or none |
| Store.Database.PruneNotifyLog | store/sqlite.go:356-369 | rows whose expiry lies further back than the retention go and are counted, rows without expiry stay; that this never repeats a reminder is ReminderRuns.AtMostOnce |
| Store.LogPrunedIff | store/sqlite.go:356-369 | a row goes if and only if it has an expiry more than 90 days back, to the second |
| Migration.LookUpIsExact | store/sqlite.go:147-155 | an earlier migration is found if and only if some index of the table has an SQL text that names the column |
| Migration.EarlierMigrationIsKept | store/sqlite.go:145-160 | a log with an index whose text names the column is left alone by every start |
| Migration.MigrationKeepsRows | store/sqlite.go:94-178 | after any number of starts crashing between any statements, a complete start has every log row and no others, and shows the next start no earlier migration |
| Scheduler.Scheduler.CheckAndNotify | scheduler/scheduler.go:115-165 | one cycle sends exactly the due reminders not in the log, once per resource, and marks them if a notifier delivered and the database commits |
| Scheduler.Scheduler.DueBatch | scheduler/scheduler.go:120-139 | the query and filter give exactly the due reminders not in the log |
| Scheduler.PendingIff | scheduler/scheduler.go:120-139 | what a cycle finds due, by the columns of the rows: the reminder of an active row within its window that is readable in the log and not in it |
| Scheduler.ReminderRowReads | model/reservation.go:75-117 | which reminder a row stands for: the least configured day not below the days left, or the level, for its expiry to the second |
| Scheduler.Scheduler.Deliver | scheduler/scheduler.go:145-164 | marks if and only if at least one notifier delivered and the database commits |
| Scheduler.Scheduler.CheckGpuAndNotify | scheduler/scheduler.go:167-224 | the same for instances on demand, once per instance, without expiry |
| Scheduler.GpuPendingIff | scheduler/scheduler.go:178-203 | due are the instances on demand whose row, without expiry, is readable and not in the log |
| ReminderRuns.AtMostOnce | scheduler/scheduler.go:115-240 | a marked reminder is never due again, across writes, failures, log pruning and restarts |
| ReminderRuns.DueUntilMarked | scheduler/scheduler.go:128-164 | a reminder in its window is due if and only if it was neither in the log at first nor marked since |
| ReminderRuns.LoggedIff | scheduler/scheduler.go:115-165 | for any positive reminder days, a row for a watched expiry comes into the log, marked by exactly one step, if and only if some cycle on its day goes well |
| ReminderRuns.ReminderIff | model/reservation.go:75-97 | each configured reminder by itself: marked in exactly one step if and only if some cycle on its day goes well |
| ReminderRuns.OneCycleReminds | scheduler/scheduler.go:115-165 | an active resource is reminded of, once, by the first cycle on a day that belongs to a reminder |
| ReminderRuns.GoodCycleOnItsDay | scheduler/scheduler.go:115-165 | a cycle within one day count goes well for a reminder if and only if it runs before the expiry on a day of that threshold, reads the log, delivers and commits |
| ReminderRuns.LoggedIsAheadOrLevel | model/reservation.go:75-117 | whatever is logged for the expiry is a reminder still ahead or a level row of a day beyond the widest reminder |
| ReminderRuns.ExactlyTheConfiguredReminders | model/reservation.go:75-97 | for any positive reminder days, one good cycle per reminder day gives each configured reminder exactly once; the log holds just those if and only if no cycle went well beyond the widest reminder, so always with a day of 30 or more |
| ReminderRuns.FailedNotifierMissesOut | scheduler/scheduler.go:145-164 | whenever one notifier delivers a reminder and another fails, the one that failed does not get it in any continuation |
| ReminderRuns.DeliveredByTheMark | scheduler/scheduler.go:145-164 | a notifier gets a reminder if and only if it delivers in the cycle that marks it or in an earlier one that found it due |
| ReminderRuns.EveryNotifierIff | scheduler/scheduler.go:145-164 | every notifier gets every marked reminder if and only if each that fails in the marking cycle delivered it before |
| ReminderRuns.GpuDueUntilMarked | scheduler/scheduler.go:178-223 | an instance on demand is due if and only if its row was neither in the log at first nor marked since |
| ReminderRuns.SecondEpisodeIsSilent | scheduler/scheduler.go:183-223 | a run in which an instance is reported, covered, on demand again and not reported |
| ReminderRuns.AlertsAfreshIff | scheduler/scheduler.go:183-223 | a spell on demand is reported once, as promised, if and only if the log holds no row of the instance when it begins |
| ReminderRuns.PerformCheck | scheduler/scheduler.go:115-165 | a check cycle does what the step of the run model does |
| ReminderRuns.PerformCheckGpu | scheduler/scheduler.go:167-224 | the same for the on-demand cycle |
| ReminderRuns.PerformPruneLog | scheduler/scheduler.go:231-240 | the same for pruning the log |
| Sync.Syncer.SyncAll | scheduler/scheduler.go:30-112 | a run performs exactly its prune and its accounts' operations in order, on both tables, and reports the items synced |
| Sync.Syncer.PruneUnlisted | scheduler/scheduler.go:34-53 | rows of accounts no longer configured go unless no account is syncable |
| Sync.Syncer.SyncReservations | scheduler/scheduler.go:59-83 | replace after a clean non-empty fetch, merge otherwise; by errors and items, CleanFetchReplaces, PartialFetchPreserves and PartialFetchMerges say what that leaves |
| Sync.Syncer.Merge | scheduler/scheduler.go:75-82 | items are upserted one by one and failed ones skipped |
| Sync.Syncer.SyncGpu | scheduler/scheduler.go:85-109 | the same rule for GPU coverage; what it leaves is SyncGpuFacts.CleanGpuFetchReplaces and PartialGpuFetchPreserves |
| SyncFacts.IdsDetermineAccounts | csvutil/csv.go:72-72 | the account ID can be read off the row ID if and only if it holds no underscore |
| SyncFacts.FetchedRow | store/sqlite.go:231-247 | changeable columns come from the last item with an ID, fixed ones from the row or the first item |
| SyncFacts.RunIsLocal | scheduler/scheduler.go:30-83 | a run treats each account as if it were alone in the table |
| SyncFacts.CleanFetchReplaces | scheduler/scheduler.go:62-69 | after a fetch without errors that is not empty the account has exactly the fetched rows |
| SyncFacts.PartialFetchPreserves | scheduler/scheduler.go:70-83 | after a fetch with errors, or an empty one, no row is lost and only fetched ones changed |
| SyncFacts.PartialFetchMerges | scheduler/scheduler.go:70-83 | after a fetch with errors the fetched items the database writes are in the table, the last of an ID |
| SyncFacts.TotalCounts | scheduler/scheduler.go:62-83 | the total counts, account by account, the items of a committed replacement or those merged |
| SyncFacts.FailedReplaceChangesNothing | store/sqlite.go:249-268 | a replacement that fails leaves the account as it was |
| SyncFacts.UnlistedArePruned | store/sqlite.go:506-543 | rows of unlisted accounts go exactly if the keep list is non-empty, of at most 900 accounts and the database agrees |
| SyncFacts.KeepListCounts | scheduler/scheduler.go:34-44 | the keep list has one entry per synced account with an ID |
| SyncGpuFacts.GpuRunIsLocal | scheduler/scheduler.go:85-109 | the GPU table: a run treats each account as if it were alone in it |
| SyncGpuFacts.CleanGpuFetchReplaces | scheduler/scheduler.go:85-96 | after a GPU fetch without errors the account has exactly the fetched instances, covered as the last item says |
| SyncGpuFacts.PartialGpuFetchPreserves | scheduler/scheduler.go:85-109 | after a GPU fetch with errors, or an empty one, no row is lost and only written ones change, in how they are covered |
| SyncGpuFacts.PartialGpuFetchMerges | scheduler/scheduler.go:97-109 | and the written ones are covered as their last item says |
| SyncGpuFacts.FailedGpuReplaceChangesNothing | store/sqlite.go:270-295 | a GPU replacement that fails leaves the account as it was |
| SyncGpuFacts.UnlistedGpuArePruned | store/sqlite.go:506-543 | GPU rows of unlisted accounts go under the same conditions, if the database agrees to both deletions |
| SyncFacts.NeverSeenEmpty | store/sqlite.go:249-251 | under any interleaving of syncs and imports a configured account with rows is never seen without |
| SyncFacts.ImportCanEmptyIff | csvutil/csv.go:61-72 | imports under account a and syncs can leave a configured account p without rows if and only if p is what precedes the first underscore of a |
| SyncFacts.UnderscoresEndanger | csvutil/csv.go:61-72 | an import endangers some configured account if and only if its account ID holds an underscore that is not its first character |
| SqlTime.CivilOf | store/sqlite.go:30-35 | every storable second has a date and time of day that denotes it |
| SqlTime.UnixEpoch | store/sqlite.go:16-25 | the Unix epoch lies 62,135,596,800 seconds after the zero time |
| SqlTime.LeapDays | store/sqlite.go:16-25 | February has 29 days in years divisible by 4, but of the centuries only in those divisible by 400 |
| SqlTime.LayoutReads | store/sqlite.go:16-25 | the layout on one date: 2025-06-01 18:00:05 |
| SqlTime.FormatOfCivil | store/sqlite.go:27-35 | the stored text of an instant is that of the date and time of day of its second |
| SqlTime.SqlTextOrder | store/sqlite.go:16-25 | the layout embeds the calendar order into the order of texts |
| SqlTime.TextOrderIsTimeOrder | store/sqlite.go:27-35 | stored texts compare as the instants do, to the second; the zero time sorts first |
| SqlTime.OrderByTextIsChronological | store/sqlite.go:297-310 | ordering by the stored text is chronological, behind rows without expiry |
| SqlTime.FormatParseRoundTrip | store/sqlite.go:27-51 | reading a stored instant gives it back, cut to the second |
| SqlTime.ParseFormatRoundTrip | store/sqlite.go:37-51 | a text of the canonical length that is read is the stored text of what it is read as, the zero time apart |
| SqlTime.LegacyTextIsUnderstood | store/sqlite.go:46-49 | RFC 3339 texts are read as the instant they denote |
| SqlTime.ReadZoneBack | store/sqlite.go:46-49 | +hh:mm is read as that many seconds east, -hh:mm as west |
| SqlTime.LegacyTextDoesNotSort | store/sqlite.go:21-24 | a canonical text sorts before an RFC 3339 text if and only if its date is not the later one, whatever the times of day |
| SqlTime.LegacyTextSortsIff | store/sqlite.go:21-24 | in UTC the two sort as their instants if and only if the dates differ or the canonical one has the earlier time of day |
| Sns.TruncateMessage | notifier/sns.go:59-69 | within the limit, well-formed if the body is, the body or a prefix with the notice, at most 3 bytes given up |
| Sns.TruncateSubject | notifier/sns.go:73-83 | the same at 100 bytes, without notice |
| Sns.BackOff | notifier/sns.go:64-67 | the loop stops at the last start of a character, or at 0 |
| Sns.CutAtRuneStart | notifier/sns.go:64-67 | cutting before the start of a character keeps a text well-formed |
| Sns.ValidIffEncoded | notifier/sns.go:50-83 | a text is well-formed if and only if it encodes characters, by section 3 of RFC 3629 |
| Sns.StartIsNear | notifier/sns.go:64-67 | a character starts at most three bytes back |

## Left out

- AWS fetchers, pagination and account resolution: network access; their results are arbitrary inputs.
- Lark and SNS publishing and the text of messages: a notifier is an arbitrary success or failure.
- SQL text, the timestamp-normalising updates, `updated_at` and `notified_at`: tables are maps and sets, `julianday` is exact time, bookkeeping columns are not modelled.
- Password hashing, token randomness, HTTP routing, cookies, origin checks, configuration loading and the CSV reader: taken as parameters or not part of this model.
- Card and core counts per instance type and the rate division: table look-ups.
- Floating point: rates and commitments are `real`; a Retry-After is exact seconds of an integer duration.
- Wall clocks that run backwards and duration saturation: time does not decrease along a run and integers are unbounded.
- The list of error messages a sync collects and log output: only which writes happened is modelled.
- Records of the limiter are values in its map: the source keeps pointers, but nothing else holds them.
- SqlTime.FormatParseRoundTrip: covers the years 0000 to 9999, for which the layout has room; fractions of a second and one-digit hours, which the parser also accepts, are not modelled.
- The encoding of string literals: the truncation notice is taken as the bytes of its ASCII text.
- Password checks per client address: the bound has the shape of the one per user name.
- The row counts a deletion reports are taken to be available from the driver.
- Store.Database.HasNotified: the log keeps an expiry as an instant cut to the second; that reading the stored text gives just that is Store.CutIsRead.
- Check cycles are atomic with respect to the log: cycles, log pruning and restarts run one after the other in the source, only table writes by syncs and imports interleave.
- Reservations whose stored expiry cannot be parsed: rows hold what the program itself writes.
