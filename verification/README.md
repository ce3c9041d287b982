# Verge ASM: models and proofs

Dafny models of the logic under the web handlers of Verge ASM, an attack-surface-management server, and
of its comment linter's annotation printer, with proofs of what that logic is relied on for. Each file
holds one module, named after the part of the program it follows. `dafny verify dfyconfig.toml` checks
them all.

- **Run progress** (`ProgressHub`, `RunStream`). A hub keeps bounded event logs of recent runs. A long
  poll reads job state lines and events through one integer cursor that packs two positions. The hub is
  shown to refine an unbounded history, and the stream to deliver every line exactly once and in order
  whatever way recording, job changes and polls interleave.
- **Login limiter** (`LoginLimiter`). Failure counts, decay, doubling lockouts and the account ceiling.
  The rate of guesses is bounded over whole runs, and the account lock window is given exactly.
- **Backup and restore** (`Archive`). Printing, redaction, the gates, the replay and the one transaction.
  No archive and no restore carries a secret in the clear; a restore of a backup gives back the other
  columns of every row and prints the same archive again.
- **Concurrent protocols** (`InviteAccept`, `FirstBootSetup`, `Dials`, `DialRuns`, `DialText`). Each is a state machine
  over the statements the handlers issue. One account per invite, one first admin, and an audit log that
  always tells the stored value, over every interleaving.
- **Folds over vantages** (`ClassFolds`, `ReachLegs`, `GapLedger`). Independence of row order, folding by
  parts, dates, and a ledger that gives every service one place.
- **Listings** (`GraphScope`, `GraphLayout`, `GraphDrawing`, `GraphSignals`, `InventoryLabels`, `Inventory`, `DriftFeed`, `RunOutcome`).
  Capped drawings that stay legible, and grouping, projection, truncation and counting that lose nothing
  and count nothing twice.
- **Prefixes and text** (`PrefixCover`, `QueryParams`, `Annotation`). A two-comparison containment test
  (prefixes as in section 3.1 of RFC 4632), query stripping that composes, and an annotation format that
  reads back.
- **Shared** (`Wrappers`, `Sorting`, `Text`, `Decimal`). Options and results, sorted lists, splitting and
  joining, decimal numerals.

A loop of the program is a method proved against a specification function or predicate, and the lemmas are
about those. Where the program keeps state in an object there is a class (`ProgressHub.Hub`,
`LoginLimiter.Limiter`, `Archive.Store`). Where requests interleave, each request is a small state machine
whose steps are its statements, and runs are sequences of enabled steps.

## Where the code does not do what is expected of it

Each of these is kept as the code has it. The lemma named gives the input, or the exact condition.

- A destination that ends in an empty fragment passes the fragment check, and a receipt appended to it
  lands in the fragment (`QueryParams.EmptyFragmentPasses`). The receipt arrives exactly when the resolved
  destination holds no `#` (`QueryParams.ReceiptArrivesExactly`).
- The limiter's check and its failure count are two calls with password work between them. One request at a
  time, an account key is held to the same rate as any other (`LoginLimiter.AccountOneInFlightTakesTime`). With
  three in flight, its lock can outlast the ceiling, and past the ceiling guesses are not held at all
  (`LoginLimiter.ReleasedAccountGuessesFreely` is the run; `LoginLimiter.LastOfShortRunIsHeldExactly` the
  exact condition).
- An accept that loses the invite and then fails to delete its account leaves that account behind.
  `InviteAccept.SurvivorsOfAnInvite` says exactly which accounts survive;
  `InviteAccept.LostAcceptCanKeepItsAccount` is a run that leaves two.
- Setup reopens when the last account is removed, and can then make a second admin
  (`FirstBootSetup.EmptiedStoreReopensSetup`, `FirstBootSetup.SetupMakesOneAdminPerEmptyStore`). Its mutex keeps
  out other setup posts only: an account made another way after the check does not stop it
  (`FirstBootSetup.AdminBesideAnotherAccount`).
- A cursor is read back exactly while the state position is below 1,000,000
  (`RunStream.CursorRoundTrip`, `RunStream.FirstCursorIsStateCount`). The page's first cursor is a bare
  line count that no cap bounds.
- ADR-0182 describes the stream's state lines as not cut; `cmd/web/scans.go:565-568` cuts them one below
  the cursor base, and the model does too.
- A cursor kept from before an eviction skips events of the fresh log (`RunStream.RestartedLogDelivered`).
- The drift page drops a truncated batch that shows no event, and its note with it; the export keeps the
  note (`DriftFeed.TruncationNotesAgreeExactly`; `DriftFeed.FiftyOneBreaksLoseTheirNote` is such a read).
- Graph nodes are indexed by their plain id, so of two nodes with the same id text the last one takes the
  firings of both (`GraphSignals.FiringIsOnItsOwnNodeExactly`; `GraphSignals.NameLosesItsFiringToAnAddress`
  is such a drawing).
- For an IPv4-mapped scope and a cap of 2^62 or more, the narrower block a refusal names is the whole
  address space (`PrefixCover.ReachableLength`).
- The upload preflight accepts an archive with a row of an unknown table; applying it refuses
  (`Archive.PreflightAgainstGate`).

## Model

| member | source | states |
|---|---|---|
| `ProgressHub.Hub.RecordEvent` | cmd/web/progress.go:44-60 | one recorded event changes the hub exactly as `Record` says: runless events dropped, a new run admitted with eviction, a full log left alone |
| `ProgressHub.Hub.EvictOldest` | cmd/web/progress.go:62-68 | the eviction loop leaves exactly `Evict` of the old state |
| `ProgressHub.Hub.ForDispatch` | cmd/web/progress.go:70-80 | a reader gets that run's whole log, and the empty log for a run the hub does not hold |
| `ProgressHub.EvictDropsOldest` | cmd/web/progress.go:62-68 | from a legal state, admitting a run past 256 drops exactly the oldest run, from the list and from the map |
| `ProgressHub.RecordKeepsInvariant` | cmd/web/progress.go:34-68 | every event keeps: `recent` without repeats, equal to the map's keys, at most 256 runs, at most 1024 events each |
| `ProgressHub.RecordedLog` | cmd/web/progress.go:48-60 | a surviving run's log grows by the event, and only up to its first 1024 |
| `ProgressHub.HubRefinesHistory` | cmd/web/progress.go:29-80 | main: after any sequence of events, the hub holds the most recently admitted 256 runs in admission order, each with exactly the first 1024 events recorded since its latest admission in the unbounded history |
| `RunStream.CursorRoundTrip` | cmd/web/progress.go:109-124 | decoding an encoded cursor gives both positions back if and only if the state position is below 1,000,000 |
| `RunStream.FirstCursorIsStateCount` | cmd/web/scans.go:600-605 | the page's own first cursor (a bare count of rendered lines) decodes to that count with no events if and only if it is below 1,000,000 |
| `RunStream.CursorFitsInt32` | cmd/web/progress.go:111-117 | the 1024-event cap keeps every cursor at most 1,024,999,999, below 2^31 |
| `RunStream.StateLog` | cmd/web/scans.go:557-568 | the state-line loop yields one line for each of the first 999,999 rows with the watched id (of all rows without a filter), in order, each naming its row and its level and text |
| `RunStream.EventStreamLines` | cmd/web/progress.go:93-107 | the event loop yields one line for each event whose job is the watched id (for every event without a filter), in order, with the job, level and text of that event |
| `RunStream.StateLineReads` | cmd/web/scans.go:782-802 | a dead row reads as an error, a superseded or retrying one as a warning, any other plain; the text names kind and state, and vantage and batch where there are any |
| `RunStream.RunDone` | cmd/web/scans.go:574-591 | done means: the filtered job is absent or settled, or with no filter every job is |
| `RunStream.Tick` | cmd/web/scans.go:615-637 | one pass of the poll loop answers exactly when a watched row or event lies past the cursor or the run is done, with the line of each such position and a cursor behind the last of them |
| `RunStream.AnswerServesWatched` | cmd/web/scans.go:605-637 | told by the positions of the watched rows and events, for every cursor: the lines answered are those past the two halves of the cursor, and the next cursor counts all of them |
| `RunStream.Poll` | cmd/web/scans.go:594-641 | main: the answer is that of the first snapshot with news, which holds the watched lines past the cursor, or an empty one when no snapshot had any |
| `RunStream.FirstNewsAnswers` | cmd/web/scans.go:614-640 | snapshots with no news do not change the answer: the first one with news decides it |
| `RunStream.ServedPositions` | cmd/web/scans.go:565-568 | exactly the positions below 999,999 are served once the state log reaches the cursor base, each as its kept job's line |
| `RunStream.GrownKept` | cmd/web/scans.go:539-563 | jobs added at the end never shift a filtered position |
| `RunStream.EventLinesPrefix` | cmd/web/progress.go:93-107 | a longer log only appends to the filtered event lines |
| `RunStream.StreamDeliversExactlyOnce` | cmd/web/scans.go:594-641 | main: along every interleaving of recorded events, job changes that only append, job reads and answers, for a run that stays in the hub, the viewer holds the line of each of the first watched events up to its cursor, and a line of each watched row position from the first to its cursor, exactly once and in order |
| `RunStream.PollCatchesUp` | cmd/web/scans.go:621-637 | one read and answer bring a viewer level: it holds one line for every watched event recorded and every addressable watched row |
| `RunStream.RestartedLogDelivered` | cmd/web/scans.go:605-628 | for a cursor kept from before an eviction, the fresh log is delivered whole if and only if the cursor's event part is zero or the log is empty |
| `LoginLimiter.LockoutFor` | cmd/web/ratelimit.go:103-115 | the doubling loop computes base·2^(failures−max) cut at the maximum lockout |
| `LoginLimiter.Limiter.Locked` | cmd/web/ratelimit.go:48-65 | the keys are held exactly when some key's lockout runs and the key does not begin with the account prefix, or no ceiling is set, or the ceiling has not passed since its first lock |
| `LoginLimiter.Limiter.Fail` | cmd/web/ratelimit.go:67-93 | the new entries are the old ones with each key's failure applied in turn; it reports a lock exactly when some key reached the threshold |
| `LoginLimiter.Limiter.FailOne` | cmd/web/ratelimit.go:77-90 | one entry after one failure: decay, count, anchor, lock |
| `LoginLimiter.Limiter.Reset` | cmd/web/ratelimit.go:95-101 | exactly the named keys are forgotten |
| `LoginLimiter.FailAllIsPerKey` | cmd/web/ratelimit.go:71-91 | keys do not interfere: each key's entry depends only on its own occurrences in the call |
| `LoginLimiter.LastOfShortRunIsHeldExactly` | cmd/web/ratelimit.go:48-93 | of maxFailures+1 failures of one key within less than min(window, base lockout), from any entry, the last is let through if and only if the account ceiling had released the key |
| `LoginLimiter.GuessesTakeTime` | cmd/web/ratelimit.go:48-93 | so maxFailures+1 let-through failures span at least min(window, base lockout) unless the key was released |
| `LoginLimiter.GuessingRateIsBounded` | cmd/web/ratelimit.go:48-93 | main: on a non-account key, rounds·maxFailures+1 let-through failures span at least rounds times min(window, base lockout), for any number of rounds and any starting entry |
| `LoginLimiter.ReleasedIsNotHeldAgain` | cmd/web/ratelimit.go:57-60 | an account key past its ceiling is not held again for the rest of its streak |
| `LoginLimiter.AccountGuessingRateIsBounded` | cmd/web/ratelimit.go:35-93 | main: from a fresh account key on the shipped schedule, failures let through one at a time are held to the same rate anywhere in the run |
| `LoginLimiter.InFlightGuessesTakeTime` | cmd/web/auth.go:337-356 | main: with check and failure as two calls and at most k requests of a key between them, maxFailures+k failures span at least min(window, base lockout), from any state, unless the ceiling let a locked key's request in |
| `LoginLimiter.InFlightBoundIsTight` | cmd/web/auth.go:337-356 | and no fewer: from a fresh key, k requests in flight make maxFailures+k-1 failures in one instant, for every k |
| `LoginLimiter.AccountOneInFlightTakesTime` | cmd/web/auth.go:337-356 | with one request in flight at most, six failures of a fresh account key on the shipped schedule span at least 300 seconds, anywhere in the run |
| `LoginLimiter.ReleasedAccountGuessesFreely` | cmd/web/ratelimit.go:57-60 | a run from a fresh account key: three requests in flight fail seven times at instant 0, and at instant 900 any number of guesses made one at a time are all let in |
| `LoginLimiter.StreakClosedForm` | cmd/web/ratelimit.go:77-89 | the entry after i failures of an unbroken streak, in closed form: the anchor is the first locking failure and never moves |
| `LoginLimiter.LockedExactlyWhen` | cmd/web/ratelimit.go:48-93 | at any instant after a streak the key is locked if and only if the streak reached the threshold, the last lockout has not run out and, for an account key, the ceiling has not |
| `LoginLimiter.AccountLockWindow` | cmd/web/ratelimit.go:57-89 | every instant an account key is reported locked in one streak lies in [first lock, first lock + ceiling) |
| `LoginLimiter.ShippedSchedule` | cmd/web/ratelimit.go:35-46 | the shipped lockouts run 5, 10, 20, 40 and then 60 minutes |
| `Archive.RedactBackupRow` | cmd/web/backup.go:102-118 | an account row's TOTP secret is null and its TOTP switch false, a channel row's secret null, a provider row's client secret null, wherever present; every other column is kept; only a non-object row of those three tables is refused |
| `Archive.OverwriteColumns` | cmd/web/backup.go:107-117 | the column loop overwrites exactly the columns the row has |
| `Archive.RedactIsIdempotent` | cmd/web/backup.go:91-118 | redaction leaves a row alone if and only if it carries no secret in the clear, so redacting twice is redacting once |
| `Archive.DumpBackupTable` | cmd/web/backup.go:186-207 | one line for each row of the table, in order: the row with its secrets blanked and nothing else changed |
| `Archive.StreamBackup` | cmd/web/backup.go:171-184 | the archive is the manifest of this format and version, then for each named table its header and one line for each row, in order, the secrets blanked and nothing else changed; no line carries a secret in the clear |
| `Archive.BackupAllowed` | cmd/web/restore.go:158-165 | the allowlist scan is membership |
| `Archive.CheckManifest` | cmd/web/restore.go:310-322 | the manifest gate: first line, format, version, every named table allowlisted |
| `Archive.CheckArchiveRowTables` | cmd/web/restore.go:133-156 | the pre-scan finds the first malformed line or row of an unknown table |
| `Archive.RowGatePassesExactly` | cmd/web/restore.go:133-156 | it passes if and only if every line is well formed and every row's table is allowlisted |
| `Archive.FirstRefusedLineDecides` | cmd/web/restore.go:133-156 | the error is that of the first line refused: malformed, or else a row of an unknown table |
| `Archive.PreflightArchive` | cmd/web/restore.go:73-131 | staging accepts exactly the archives with a good manifest and no malformed line, and counts the distinct subjects of the archive's open span rows |
| `Archive.PreflightAgainstGate` | cmd/web/restore.go:73-156 | staging never refuses what applying accepts; of what staging accepts, applying refuses exactly the archives with a row of an unknown table |
| `Archive.Store.ReplayLine` | cmd/web/restore.go:382-414 | the replay loop's body: skip, refuse, redact and insert one line as the specification says |
| `Archive.Store.ReplayArchive` | cmd/web/restore.go:360-417 | truncate with cascade, then the lines one by one, stopping at the first error |
| `Archive.Store.ApplyRestore` | cmd/web/restore.go:310-345 | a refused or failed restore leaves the database as it was; a committed one leaves it as the specification says |
| `Archive.ReplayAppendsArchiveRows` | cmd/web/restore.go:382-414 | each table gains exactly the archive's rows of that table, in order |
| `Archive.GatedArchiveReplaysWithoutLoopChecks` | cmd/web/restore.go:382-396 | after the gates pass, the loop's malformed-line and unknown-table exits are unreachable |
| `Archive.ReplayNeverAddsCleartext` | cmd/web/restore.go:382-414 | main: whatever the archive holds, a replay that gets through adds to a table one row for each of the archive's row lines of it, in order: the table's columns, null where the line has none, the archived text elsewhere, and every secret column blanked again |
| `Archive.BackupPassesGates` | cmd/web/backup.go:171-222 | every archive the printer writes passes both gates |
| `Archive.BackupRoundTrip` | cmd/web/restore.go:360-417 | main: replaying a streamed backup over any earlier contents fails if and only if the database refuses one of its rows; otherwise every carried table holds the original rows, in order, with their secrets blanked and nothing else changed, and backing up that state prints the same archive |
| `Archive.RestoreOwnBackup` | cmd/web/restore.go:310-451 | main: a whole restore of the 35-table allowlist commits if and only if no row is refused and the store does not fail; then the tables hold the original rows with their secrets blanked, the vantage and span rows are what the closing statements make of the original ones, the act table is the original one and the restore's own row, and no session is left |
| `Archive.GatePassesExactly` | cmd/web/restore.go:310-329 | an archive gets past the gates if and only if its manifest is of this format and version and names allowed tables, no line is malformed and every row is of an allowed table; it is refused for its format exactly when its first line is JSON of another type, format or version |
| `Archive.CommittedRestoreReplaces` | cmd/web/restore.go:310-417 | main: after a committed restore of any archive, a table the manifest names, the act table even when it is not named, and what those cascade to hold the archive's rows alone; a manifest without tables takes nothing away; the restore's own Act comes last and no session is left |
| `Archive.TruncateNamesOnlyAllowed` | cmd/web/restore.go:350-356 | every identifier put into TRUNCATE is allowlisted |
| `Archive.AllowlistHasNoDuplicates` | cmd/web/backup.go:23-68 | the allowlist names 35 tables, none twice, the act table among them and the session table not |
| `InviteAccept.StepKeepsInvariant` | cmd/web/auth.go:1210-1255 | every statement of any accept, and any mint, account creation or account removal beside it, keeps the protocol's invariant |
| `InviteAccept.RunKeepsInvariant` | cmd/web/auth.go:1210-1276 | so every reachable state of every run has it |
| `InviteAccept.SurvivorsOfAnInvite` | cmd/web/auth.go:1230-1254 | main: once all accepts have finished, the accounts an invite still has are exactly the one its row records and those whose clean-up delete failed and that nobody has removed since |
| `InviteAccept.AtMostOneAccountPerInvite` | cmd/web/auth.go:1230-1254 | without a failed delete, at most one account of an invite survives, it is the recorded one and it has the invite's role |
| `InviteAccept.OneAcceptancePerInvite` | db/queries/invite.sql:11-14 | along every run an invite's acceptance is recorded at most once, and an accept that lost the race lost it to another winner |
| `InviteAccept.LostAcceptCanKeepItsAccount` | cmd/web/auth.go:1237-1248 | a run of two accepts of one invite whose clean-up delete fails: both accounts stay |
| `InviteAccept.AccountsNeedAnOpenInvite` | cmd/web/auth.go:1257-1276 | main: over every run, an account made from an invite was made by a request that had looked the invite up unused, before its expiry and for the role admin or viewer, and it holds that role and the posted username |
| `InviteAccept.AccountMadeExactly` | cmd/web/auth.go:1218-1234 | a statement makes an account for an accept if and only if it is that request's create, its credentials are good, the store works and no account has the username |
| `FirstBootSetup.StepKeepsInvariant` | cmd/web/auth.go:204-247 | every statement keeps: only the lock's holder is past the closed check, with a token set; a post that reports an admin carried the token and good credentials; every admin setup made is reported by such a post |
| `FirstBootSetup.RunKeepsInvariant` | cmd/web/auth.go:204-247 | along every run, with accounts created and removed beside it, the admins made and the one an open post may still make never outnumber the times the store was without accounts |
| `FirstBootSetup.SetupMakesOneAdminPerEmptyStore` | cmd/web/auth.go:204-247 | main: setup makes at most one admin for each time the store is without accounts, at the start or by a removal |
| `FirstBootSetup.SetupMakesAtMostOneAdmin` | cmd/web/auth.go:204-247 | main: while the last account is never removed setup makes at most one admin, only on an instance that began without accounts and has a token |
| `FirstBootSetup.AdminsNeedTheToken` | cmd/web/auth.go:217-229 | main: over every run a post that came back with an account carried the instance's token and good credentials, and every admin setup made came back to such a post |
| `FirstBootSetup.PostMakesAdminExactly` | cmd/web/auth.go:208-247 | setup is open to a post if and only if a token is configured, the store answers and holds no account; an open post makes an admin if and only if its token and credentials are good and the store works |
| `FirstBootSetup.EmptiedStoreReopensSetup` | cmd/web/auth.go:237-247 | a run in which the first admin is removed and setup makes a second: the bound is met |
| `FirstBootSetup.AdminBesideAnotherAccount` | cmd/web/auth.go:204-234 | a run in which another account is made after an open check and setup still makes its admin: only the check looks at the accounts |
| `DialText.HumanDaysDeterminesDays` | cmd/web/retentionpanel.go:158-175 | two day counts print the same if and only if they are equal or both mean "keep everything" |
| `DialText.HumanCadencesDeterminesCount` | cmd/web/retentionpanel.go:177-185 | the same for cadence multiples |
| `DialText.HumanDaysReads` | cmd/web/retentionpanel.go:158-175 | a day count is written in whole years where it can be, else in whole months except one, else in days, one of a unit in the singular |
| `Dials.MoveKeepsSiblings` | cmd/web/settings.go:675-695 | a move never changes a dial its form does not compare, so a transcript move keeps the other two dials of its row |
| `Dials.MoveStores` | cmd/web/settings.go:1361-1379 | after any move a toggle is 1 if and only if it was submitted on, the address cap, the transcript days and the interval in seconds are the submitted ones, and a coverage dial holds the submitted count when it parses and is not negative, else the locked one, raised to its own floor exactly when it lies between 0 and the floor |
| `Dials.MoveRecords` | cmd/web/retentionpanel.go:530-556 | a move leaves each dial with what its form submitted, records one Act for each dial whose stored value changed, carrying the new value, and none for the rest |
| `Dials.MoveKeepsFaithful` | cmd/web/dialtx.go:52-64 | one committed move keeps a dial's Act log faithful |
| `Dials.MovesKeepFaithful` | cmd/web/dialtx.go:52-64 | so does any sequence of moves |
| `DialRuns.LockedReadIsCurrent` | cmd/web/settings.go:675-690 | what a transaction read under its row lock still decides the same writes and Acts when it commits |
| `DialRuns.RunKeepsInvariant` | cmd/web/dialtx.go:52-74 | every interleaving of locks, updates, records, commits and rollbacks keeps the locking invariant |
| `DialRuns.DialMovesSerialise` | cmd/web/dialtx.go:52-74 | main: the store after any interleaving is the one the committed submissions make one after another in commit order (each as `Dials.MoveStores` says) |
| `DialRuns.CommitsDecideDials` | cmd/web/retentionpanel.go:511-570 | main: over every interleaving each dial goes through the values its committed submissions leave, one after another, and the last is stored; so the last committed submission with a field for a dial decides it, and without one it keeps its first value |
| `DialRuns.FreeRowCommits` | cmd/web/dialtx.go:52-74 | a submission that is let in can commit as one move whatever else is under way, as long as no transaction holds its row |
| `DialRuns.BeginsExactly` | cmd/web/settings.go:660-674 | which submissions a handler lets into a transaction: days of 0 or more, a cap of 1 or more, an interval of 1 to 3650 days |
| `DialRuns.ActLogIsFaithful` | cmd/web/dialtx.go:52-74 | main: after any interleaving a dial's Act log never holds the same value twice in a row, starts from a change of the initial value, and ends with the stored value |
| `Dials.TextDeterminesValue` | cmd/web/retentionpanel.go:158-185 | for every value a form can store, the recorded text is the same if and only if the value is |
| `Dials.TextReads` | cmd/web/settings.go:1361-1379 | what an Act shows: "on" for 1 and "off" for 0, the address cap as a number, days and cadences as counted text |
| `DialRuns.ActTextsAreFaithful` | cmd/web/settings.go:688-693 | the same as ActLogIsFaithful for the recorded texts |
| `ClassFolds.ComposeClassResolution` | cmd/web/vantageclass.go:221-257 | the loop with its agreed, voted and unanimous flags computes the verdict of the set of votes and the sorted duplicate-free union of the resolved addresses |
| `ClassFolds.ClassFoldIsUnique` | cmd/web/vantageclass.go:221-257 | that description leaves one result |
| `ClassFolds.ClassFoldIgnoresOrder` | cmd/web/vantageclass.go:221-257 | row order does not matter |
| `ClassFolds.VerdictMerges` | cmd/web/vantageclass.go:225-255 | merging two verdicts is the verdict of the merged votes, with Gap as unit and Resolved absorbing |
| `ClassFolds.ClassFoldByParts` | cmd/web/vantageclass.go:221-257 | main: folding a class in two parts and folding the two readings gives exactly the results of folding it whole |
| `ClassFolds.ClassFoldByAnyParts` | cmd/web/vantageclass.go:221-257 | the same for any number of parts |
| `ClassFolds.ReadRunning` | cmd/web/signals.go:856-880 | the class loop finds the outcome all running classes share, if they do, and whether all of them suppress the name |
| `ClassFolds.ComposeResolution` | cmd/web/signals.go:856-895 | the composed resolution is the one its specification allows |
| `ClassFolds.ComposedIgnoresOrder` | cmd/web/signals.go:856-895 | the order and repetition of the running classes do not matter |
| `ReachLegs.ComposeReach` | internal/exposure/exposure.go:25-43 | reached if some reading reached, else not reached if some did not, else no value |
| `ReachLegs.ClassGap` | cmd/web/vantageclass.go:179-195 | a class is gapped when some row is; its reasons and causes are the distinct ones in row order |
| `ReachLegs.LegFromClassGroup` | cmd/web/vantageclass.go:145-175 | the leg of a class: value or gap, reasons, and the date folded over the openings that hold the leg's value |
| `ReachLegs.LatestOpening` | cmd/web/vantageclass.go:160-173 | an unreached leg's date is the latest opening |
| `ReachLegs.EarliestOpening` | cmd/web/vantageclass.go:160-173 | a reached leg's date is the earliest opening if and only if no opening is the zero time or the last one is |
| `ReachLegs.LegDate` | cmd/web/vantageclass.go:145-175 | main: both, for the leg the code builds |
| `ReachLegs.LegReads` | cmd/web/vantageclass.go:145-195 | main: read off the rows: reached if some row is, not reached if one is and none is reached, else a gap if some row is; reasons and causes exactly those of the gap rows, and only without a value; the date is an opening of a row that says what the leg says, the latest, or for a reached leg without a zero-time opening the earliest |
| `ReachLegs.LegIgnoresOrder` | cmd/web/vantageclass.go:145-195 | row order changes neither value nor gap nor the set of reasons nor the set of causes, and not the date unless a reached leg has a zero-time opening |
| `ReachLegs.ZeroOpeningDependsOnOrder` | cmd/web/vantageclass.go:160-173 | two reached rows, one opened at the zero time: the leg's date is the other opening in one order and the zero time in the other |
| `ReachLegs.GroupRows` | cmd/web/vantageclass.go:123-133 | rows are grouped by subject and derived class, in order, with no empty group |
| `ReachLegs.CollapseReachLegs` | cmd/web/vantageclass.go:123-143 | each subject and class that has a row has exactly its own leg |
| `ReachLegs.CollapseIgnoresOrder` | cmd/web/vantageclass.go:123-143 | row order changes neither which legs there are nor their outcome, gap flag, set of reasons and set of causes, nor their date under the same condition |
| `GapLedger.RollUp` | cmd/web/cold.go:437-447 | exactly the non-empty addresses, and the services at them, that some row with a blanket cause names |
| `GapLedger.KeepOthers` | cmd/web/cold.go:474-489 | the rows left over: addressed, not of a blanketed service, not an outage |
| `GapLedger.SubjectReads` | cmd/web/subjects.go:414-449 | a whole service key splits into its address, port and transport even when the address holds colons, and its subject is address, colon, port, space, transport |
| `GapLedger.PartialSubjectReads` | cmd/web/subjects.go:414-449 | a key without a port or a transport splits and is written without it |
| `GapLedger.ListServices` | cmd/web/cold.go:501-530 | over sorted rows, the first row of each service is listed up to 50 and the rest counted |
| `GapLedger.ReachGapsAndMessages` | cmd/web/cold.go:436-531 | the three results are the ledger of the set of rows |
| `GapLedger.LedgerIgnoresOrder` | cmd/web/cold.go:436-531 | main: any permutation of the rows gives the same gaps, messages and remainder |
| `GapLedger.LedgerEntries` | cmd/web/cold.go:452-531 | the ledger is, in order, an entry "no origin" without a reason for each blanketed address and an entry "no reading" for each of the first 50 services, under the reason of its first row |
| `GapLedger.EveryServiceHasOnePlace` | cmd/web/cold.go:436-531 | main: every addressed service is in exactly one of: rolled up under an address that has its entry and message, outage only, listed with its own entry and the reason of its row that sorts first, counted as omitted |
| `GapLedger.LedgerCounts` | cmd/web/cold.go:434-531 | one message per gap; at most 50 services listed; listed plus omitted is the number of distinct left-over services; omission starts only past 50 |
| `PrefixCover.CoversIsInclusion` | cmd/web/proposals.go:153-164 | main: the length comparison and one containment test hold if and only if every address of the scope is in the exclusion |
| `PrefixCover.MaskedKeepsAddresses` | cmd/web/proposals.go:273-273 | masking a prefix keeps its length and its addresses |
| `PrefixCover.PrefixEnds` | cmd/web/proposals.go:153-164 | a prefix of full length holds one address and one of length 0 its whole family |
| `PrefixCover.CoveringExclusion` | cmd/web/proposals.go:153-164 | an exclusion is returned if and only if some exclusion holds the whole scope, and the returned one does |
| `PrefixCover.ExcludeCandidates` | cmd/web/proposals.go:173-181 | exactly the candidates not wholly inside one exclusion stay, each once and in order |
| `PrefixCover.ConfirmRefused` | cmd/web/proposals.go:272-285 | confirming a proposal is refused exactly when its scope lies wholly inside one exclusion, which is when the candidate filter drops it |
| `PrefixCover.ReachableLength` | cmd/web/seeds.go:443-457 | the named narrower block is the largest within the cap, for 32-bit and IPv4-mapped 128-bit addresses, if and only if the address is 32-bit or the cap is below 2^62; otherwise the shift overflows and the whole space is named |
| `PrefixCover.ShiftedWraps` | cmd/web/seeds.go:443-457 | the shifted one is the power of two wrapped around into a signed 64-bit word |
| `QueryParams.Strip` | cmd/web/backurl.go:31-61 | the loop drops exactly the pairs of the named keys and the empty pieces |
| `QueryParams.StrippedPairs` | cmd/web/backurl.go:31-61 | the pairs left are the pairs there were without the named keys, in order, byte for byte |
| `QueryParams.StripComposes` | cmd/web/backurl.go:31-61 | main: stripping one set of names and then another is stripping their union, empty sets included |
| `QueryParams.StrippedQueryText` | cmd/web/backurl.go:64-74 | stripping a destination strips its query text and nothing else |
| `QueryParams.BackIsTakenExactly` | cmd/web/backurl.go:76-113 | the request's own destination is taken, stripped, if and only if it is not empty, the other checks pass and it holds no "#" but perhaps one at its very end |
| `QueryParams.ResolvedHasNoToast` | cmd/web/backurl.go:76-113 | whatever the request holds, the destination resolveBack takes from it carries no toast pair |
| `QueryParams.OneToast` | cmd/web/shell.go:73-85 | a redirect to a destination without '#' and without a toast carries exactly one toast pair, the receipt |
| `QueryParams.HashHidesReceipt` | cmd/web/shell.go:80-84 | a redirect to a destination with '#' sends the query it would send without any receipt |
| `QueryParams.ReceiptArrivesExactly` | cmd/web/backurl.go:76-113 | main: a redirect to what resolveBack returns carries its receipt as the one toast pair if and only if that destination holds no '#' |
| `QueryParams.EmptyFragmentPasses` | cmd/web/backurl.go:94-96 | the fragment gate lets "/x#" through, and its receipt does not arrive |
| `Annotation.PropertyIsOnePass` | cmd/commentlint/github.go:12-20 | escaping properties in two passes is one pass that never re-escapes |
| `Annotation.UnescapeUndoes` | cmd/commentlint/github.go:12-20 | one unescaper undoes both escapers |
| `Annotation.EscapedIsPlain` | cmd/commentlint/github.go:12-20 | escaped data has no line break, an escaped property no separator either |
| `Annotation.AnnotationReadsBack` | cmd/commentlint/github.go:22-27 | main: an independent reader gets path, line, title and message back from every annotation line |
| `Annotation.AnnotationIsOneLine` | cmd/commentlint/github.go:22-27 | an annotation is one line whatever the violation holds |
| `Annotation.AnnotationIsInjective` | cmd/commentlint/github.go:22-27 | two violations with the same annotation are the same violation |
| `DriftFeed.CapDriftFeed` | cmd/web/driftfeed.go:24-30 | the feed is the first 500 rows, and truncated exactly when a row was left out |
| `DriftFeed.RunEnd` | cmd/web/driftfeed.go:35-39 | the inner scan finds the maximal stretch of one batch |
| `DriftFeed.DriftBatchRuns` | cmd/web/driftfeed.go:32-50 | the runs are the cut pieces of a split that concatenates to the input with adjacent batches different |
| `DriftFeed.SplitIsUnique` | cmd/web/driftfeed.go:32-50 | there is only one such split |
| `DriftFeed.TruncatedExactly` | cmd/web/driftfeed.go:40-45 | a run is marked truncated exactly when its batch had more than 50 rows, and keeps the first 50 or all |
| `DriftFeed.FillGroup` | cmd/web/driftfeed.go:62-69 | one batch adds its classified events to the group and to the movement counts |
| `DriftFeed.BuildDriftFeed` | cmd/web/driftfeed.go:52-76 | the page's groups and movement are those of the runs |
| `DriftFeed.ExportRun` | cmd/web/driftfeed.go:187-213 | one run exports its classified events and a note when truncated |
| `DriftFeed.WriteDriftExport` | cmd/web/driftfeed.go:177-218 | the export holds the runs' events in order, a note per truncated run, and the feed note last exactly when the feed was cut |
| `DriftFeed.PageAndExportAgree` | cmd/web/driftfeed.go:52-76 | main: page and export of the same rows show the same events, and the movement totals, the page's events and the exported rows are equal in number |
| `DriftFeed.PageShowsExactly` | cmd/web/driftfeed.go:52-140 | main: the page of any read shows, in order and each once, exactly the rows within the first 50 of their batch's run whose derivation has not moved, each under the change its closure, predecessor and re-entry call for, in a group of its own batch; the movement counts are theirs |
| `DriftFeed.TruncationNotesAgreeExactly` | cmd/web/driftfeed.go:70-72 | page and export announce equally many truncated batches if and only if no truncated batch shows no event |
| `DriftFeed.FiftyOneBreaksLoseTheirNote` | cmd/web/driftfeed.go:62-75 | a read of 51 rows of one batch with moved derivations: the page shows nothing, the export notes the cut |
| `GraphScope.GraphScopeMembers` | cmd/web/graph.go:207-238 | a scope's names and addresses, read through resolution in both directions |
| `GraphScope.ScanAddresses` | cmd/web/graph.go:223-235 | the addresses one resolution names, and whether one is in the scope's prefix |
| `GraphScope.CollectRow` | cmd/web/graph.go:302-345 | what one span adds to names, addresses, services and edges |
| `GraphScope.Collect` | cmd/web/graph.go:282-345 | all spans together; each edge is listed once |
| `GraphScope.EdgesJoinHeldSubjects` | cmd/web/graph.go:302-345 | both ends of every edge are held subjects |
| `GraphScope.PartsReadFromSpans` | cmd/web/graph.go:197-345 | main: for every scope a name and an address are joined if and only if a span of the name resolves to that spelling and both are in scope, an address and a service if and only if a service span has that address and it is in scope; the subjects are the ends of those edges, the names in scope and, for the whole estate, services without an address |
| `GraphScope.DrawnNamesAreInScope` | cmd/web/graph.go:244-253 | every name put on the drawing is one the scope holds |
| `GraphScope.ClassifyNameTypes` | cmd/web/graph.go:167-194 | the double loop finds exactly the names with a child and no parent |
| `GraphScope.ApexesAreUnrelated` | cmd/web/graph.go:167-194 | no drawn domain is under another held name, and what is under a name of a domain is under the domain |
| `GraphScope.ChildReads` | cmd/web/graph.go:169-172 | a child is one or more characters, a dot and its parent |
| `GraphLayout.PlaceColumn` | cmd/web/graph.go:350-392 | a column shows its first entries up to the cap, one row step apart |
| `GraphLayout.GraphContentBounds` | cmd/web/graph.go:437-450 | the content box is the least one around the viewport and every padded node |
| `GraphDrawing.DrawEdges` | cmd/web/graph.go:401-412 | one line for each edge with both ends placed, from the place of its first end to the place of its second, marked when the second is a service; the rest are counted |
| `GraphDrawing.BuildScopedGraph` | cmd/web/graph.go:271-425 | the drawing is the one the spans and scope determine, and its lines are, one each, the edges in scope with both ends drawn |
| `GraphDrawing.LinesAreTheEdgesInScope` | cmd/web/graph.go:401-412 | main: on the graph of any estate and scope every line runs from the centre of one drawn subject to the centre of another that the spans join in scope, marked if and only if the second is a service, and every edge in scope with both ends drawn has exactly one line |
| `GraphDrawing.NodesStandInColumns` | cmd/web/graph.go:350-392 | every node stands in the column of its kind, at the row its key has among the subjects of that kind in scope, above the cap, with the size of a domain, another name, an address or a service |
| `GraphLayout.CappedColumnsStayLegible` | cmd/web/graph.go:44-56 | the column cap keeps the content at most 978 high, so the fit factor is at least the label minimum, and its four-digit rounding is four decimals |
| `GraphDrawing.DrawingFitsAndStaysLegible` | cmd/web/graph.go:394-435 | main: for every estate and scope the scaled content box fits the viewport, at the next ten-thousandth it does not, and the factor is at least the legibility minimum |
| `GraphDrawing.EveryNodeInsideViewport` | cmd/web/graph.go:427-435 | main: after scaling and the rounded offset every node's disc lies inside the viewport |
| `GraphDrawing.NodesDoNotTouch` | cmd/web/graph.go:28-40 | no two drawn discs touch |
| `GraphDrawing.EdgesAreAccountedFor` | cmd/web/graph.go:401-412 | main: the lines are, one each, the edges in scope with both ends drawn, CutEdges is the number of the other edges in scope, together they are all distinct edges, and CutEdges is zero when no column passed the cap |
| `GraphDrawing.HeldIsDrawnOrBeyondCap` | cmd/web/graph.go:371-392 | a subject is held by the view if and only if the scope's spans hold it, and a held one is drawn or stands past the cap in its sorted column, never both |
| `GraphDrawing.CountsSayWhatIsCut` | cmd/web/graph.go:371-380 | a column's count is shown exactly when the cap leaves a subject of it out, and then held minus drawn is the number left out |
| `GraphSignals.IndexNodes` | cmd/web/graph.go:454-457 | the index holds the last node of each id |
| `GraphSignals.WorstSeverity` | cmd/web/graph.go:512-522 | the worst severity among a node's firings, none when none has one |
| `GraphSignals.JoinSignals` | cmd/web/graph.go:452-510 | on a view, each node holds exactly its firings in order with their worst severity, and CutSignals counts exactly the cut ones |
| `GraphSignals.FiringsGoExactly` | cmd/web/graph.go:470-503 | main: on the drawing of any estate and scope a firing is cut if and only if its subject is held, stands past the cap in its sorted column and no node bears its text; it is outside if and only if it is out of the scope or neither held nor borne; otherwise it is at the last node bearing its text |
| `GraphSignals.EveryFiringIsAccountedFor` | cmd/web/graph.go:452-510 | main: firings on nodes, firings whose subject the cap left out and firings outside the scope or corpus are all the firings, none twice, and CutSignals is the number of the second |
| `GraphSignals.HeldNameKeepsItsEndpoint` | cmd/web/graph.go:484-502 | main: an endpoint whose name the scope's spans hold is at the last node bearing the name or is cut because the cap left the name out; it never falls to its service and never drops out |
| `GraphSignals.FiringIsOnItsOwnNodeExactly` | cmd/web/graph.go:454-463 | a firing sits on its own subject's node if and only if no later node bears the same text |
| `GraphSignals.NameLosesItsFiringToAnAddress` | cmd/web/graph.go:454-463 | one span whose drawing holds two nodes of one text: the address's node takes the name's firings |
| `InventoryLabels.InventoryClassTies` | cmd/web/inventory.go:400-415 | for each subject, facet and class the count is the number of its rows |
| `InventoryLabels.LabelReads` | cmd/web/inventory.go:354-415 | main: a row is labelled by its facet and discriminator, else by its facet alone, or with the class it was read from, and with its vantage's name besides if and only if another row of its subject and facet is read from the same class and the vantage has a name |
| `InventoryLabels.LabelsTellVantagesApart` | cmd/web/inventory.go:354-415 | main: two rows of one subject and facet read from distinctly named vantages of known class, without discriminator, carry different labels |
| `Inventory.GroupRows` | cmd/web/inventory.go:114-160 | the tables hold one subject for each kind and key of a row, with that subject's facets in read order; the facets number the rows |
| `Inventory.AddressKeys` | cmd/web/inventory.go:195-208 | the addresses collected are exactly those some service or endpoint stands at |
| `Inventory.SubjectAddressReads` | cmd/web/inventory.go:234-285 | a service stands at the host before its last colon, out of its brackets, an endpoint at the host behind its last "@" |
| `Inventory.ProjectAddresses` | cmd/web/inventory.go:195-244 | each such address gets one subject without facets unless it has one; nothing else changes |
| `Inventory.SortGroup` | cmd/web/inventory.go:164-185 | a group's facets and subjects in order, each subject flagged when a facet is |
| `Inventory.SubjectOrderReads` | cmd/web/inventory.go:336-352 | a subject led by a Gap comes last, then the newest leading facet comes first, one without facets counting as the oldest, then the smaller key |
| `Inventory.FacetOrderReads` | cmd/web/inventory.go:302-319 | facets are listed in the six known kinds' order, any other last |
| `Inventory.TiesStayInReadOrder` | cmd/web/inventory.go:164-170 | facets of one rank keep their read order |
| `Inventory.ProxyAddresses` | cmd/web/inventory.go:246-259 | the addresses of flagged services, exactly |
| `Inventory.PropagateProxyEdge` | cmd/web/inventory.go:246-274 | exactly the address subjects among them are flagged |
| `Inventory.BuildInventory` | cmd/web/inventory.go:114-191 | main: a subject is listed if and only if a row names it or it is an address behind a service or endpoint, once, under its kind, with its rows as facets, flagged by its own proxy rows or for an address by any service at it; groups and subjects are in order; facets total the rows |
| `Inventory.WindowGroups` | cmd/web/inventory.go:582-595 | a group shows a front of its subjects, all of them when expanded, and shown plus more is the total |
| `RunOutcome.CountRunOutcome` | cmd/web/scans.go:908-951 | main: the new signals are as many as there are signals whose latest batch not after their first sighting shares its instant with one of the run's, the transitions as many as the shown drift rows of its batches; nothing concludes without a batch |
| `RunOutcome.CountInWindow` | cmd/web/scans.go:932-948 | the signals of one window are those its batch instant governs |
| `RunOutcome.RunsShareNoSignal` | cmd/web/scans.go:922-949 | main: runs whose batches share no instant have no new signal in common, and together they count what they count apart |
| `RunOutcome.EverySignalHasABatch` | db/queries/span.sql:584-599 | a signal seen no earlier than some batch has a governing batch |

## Left out

- HTTP routing, templates, cookies, sessions, flash messages and everything a page only shows.
- SQL beyond the stated steps: a query is a step with the rows it reads or writes; row order is read order.
- JSON decoding: rows, span values and archive lines come decoded, a malformed archive line as such.
- Password hashing, one-time passwords, tokens and single sign-on.
- Archive.Store.ApplyRestore: the closing statements on the vantage and span rows (prober reset, marking vantages unavailable) are one parameter of the model, and sequence resynchronisation, which changes no row, is not modelled.
- Archive.PreflightArchive: decoding a span row to its subject is a parameter; the staging map with its expiry is not part of this model.
- Archive.BackupRoundTrip: rows are taken with the columns of their tables, as row_to_json prints them; an insert may be refused by the database, and the statement says so.
- The byte counter around the backup stream and write errors of the stream.
- Times are whole numbers. The zero time is its own value where the code asks for it.
- InviteAccept.SurvivorsOfAnInvite: invites are not deleted during the run.
- FirstBootSetup.SetupMakesAtMostOneAdmin: the audit record of setup is not modelled.
- LoginLimiter.GuessingRateIsBounded: the clock is monotone; the limiter's mutex makes each call one step and is not modelled beyond that.
- LoginLimiter.InFlightGuessesTakeTime: one key is followed; a request that is refused for its other key is simply not admitted, and no reset falls in the run.
- RunStream.StreamDeliversExactlyOnce: the run stays in the hub and jobs are only added at the end, as the protocol assumes; a line carries its job instead of its rendered tag.
- DialRuns.DialMovesSerialise: a row lock is exclusive and a transaction's writes are visible only after commit, as the database's own guarantee.
- QueryParams.ReceiptArrivesExactly: the handler's own fallback carries no toast pair, the unescaper is any function that leaves "toast" alone, and the payload is base64url text, so without "&" and "#".
- QueryParams.EmptyFragmentPasses: the checks of the path and route are one Boolean parameter, since they read neither the query nor the fragment.
- PrefixCover.CoversIsInclusion: addresses are a family and a number; zones are not modelled.
- PrefixCover.ReachableLength: the branch for other IPv6 addresses has no arithmetic and is left out.
- ReachLegs.EarliestOpening: `span.opened_at` is never null (`db/migrations/19000_span.sql:36`), so the zero time is read only from a row stored with the year 1 or an infinite instant; every other reached leg has its earliest opening.
- GraphDrawing.DrawingFitsAndStaysLegible: the fit factor is a fraction in ten-thousandths, rounded down; floating-point error is not modelled.
- GraphSignals.JoinSignals: severities are ranks; their labels are not modelled.
- GraphDrawing.BuildScopedGraph: minimap coordinates, halos, port labels, captions and dates of nodes are not modelled.
- DriftFeed.BuildDriftFeed: labels, details, reasons and times of events are not modelled, only which rows are events and of which kind.
- Inventory.BuildInventory: summaries, details and links of rows are not modelled; a composite text key is taken as the tuple it joins, and address parsing is a parameter.
- RunOutcome.CountRunOutcome: the three reads and their failure path are not modelled; no batch instant is the zero time.
- ClassFolds.ComposeResolution: the per-name collection of class readings from rows is not modelled.
- Sorting uses a stable insertion sort for the library's sorts; where the order is total the result is the same for any sort.
- The signals page's search, sort and paging, the settings forms that move no dial, certificates, reports, channels and integrations.
