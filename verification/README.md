# Banco Verde IAM: the log chain, the login state machine and the Loki buffer

Three parts of the service are modelled, and properties of whole runs are proved of them.

**The hash-chained SIEM log.** `JsText`, `Decimal` and `Json` hold the text operations and a
concrete `JSON.stringify` / `JSON.parse` (RFC 8259) over UTF-16 code units, with object keys in
JavaScript's order. `JsRuntime` holds what is taken from the runtime as it is: SHA-256, the text a
number is printed as, and the comparison of any value with a whole number. `LogEntry` is one line,
its pre-image and what a reader makes of it. `LogDirectory` is the directory with one file a day,
`ChainScan` the verifier's two nested loops, `LogRuns` the runs of writes and restarts, `Tampering`
what a verified log binds and where edits are reported, and `SiemLogger` the service as a class
whose methods are proved against those functions. `LoggedEntries` says member by member what a call
of the logger puts into the log, `EditedLogs` what the service that wrote a log answers, asked
without bounds, after an edit, and `Texts` gives lines, file names and stored codes to the
character. Of SHA-256 only the output form (64 hex digits) is used; where collisions matter, a
result asks that no two of the texts actually hashed collide, never that the hash is injective.

**The credential state machine.** `Users` and `Sessions` hold the tables and their services,
`AuthEvents` says which event each request is and what it changes, and `AuthServices` proves each
handler does exactly the event its answer stands for. `Server` puts the handlers over one set of
tables and records every request as its event: the record is a legal run of events that leads to the
tables as they are. So what is proved of runs holds of the service: `Lockout` and `RateBounds` (how
often an answer can be wrong), `MfaProvenance` (where MFA token pairs come from), `AuditReplay`
(tables against audit log and sessions), `SessionRuns` (which tokens are accepted, said of the
requests alone), `BackupCodes` and `BackupLogins` (conservation of codes, and what becomes of it
behind the controller), `Biometrics` (when biometrics go with MFA, and which device passes).
`Effects` spells out what every event writes and when it is let through, field by field and in
numbers. `ServerRuns` carries some of them over and states results at particular requests;
`Interleaving` says what holds even when requests interleave at every await, and `InFlight` how
often a password can be wrong then. Time is an explicit parameter that never goes back; a request
reads the clock more than once. Row order is never fixed.

**The Loki buffer.** `LokiTransport` has the buffer with its timer, and the nanosecond time stamps
with the rounding of their one double multiplication.

Where the code does less than its comments and documentation suggest, the model follows the code:

- Sequence numbers and the algorithm name are not hashed. A verified log binds the nine members as
  they print, the hashes and the order, but not the numbers (`Tampering.VerifiedLogsBind`,
  `Tampering.ContentsDecide`); the same entry verifies under number 1 and under number 2
  (`Tampering.RenumberedVerifies`). A member that only prints differently when re-read, such as
  `1.0` for `1`, or an infinite literal for `null`, is no change (`Tampering.ChangeReported`).
- Removing a suffix, and changing the last entry with its hash recomputed, is not reported
  (`Tampering.TruncationVerifies`, `Tampering.RehashedChangeReported`).
- The inner `break` on a number past `end` leaves only one file, and nothing after it in that file
  is read (`ChainScan.NothingAfterEndIsRead`).
- A login or refresh returns a signed refresh token that is not the token it stores, and a text
  that was not stored is refused (`SessionRuns.UnstoredIsRefused`); at a
  particular sequence of requests the very token a login returned is refused
  (`ServerRuns.ReturnedTokenIsRefused`).
- `verify-setup` and `verify-backup` store the codes encrypted, but `verify-backup` parses the
  column as it is, so no login with a backup code succeeds (`Server.Server.VerifyBackup`); at a
  particular sequence of requests an issued code is refused and counted as wrong (`ServerRuns.IssuedCodeIsRefused`).
  `BackupLogins.AcceptsIffUnusedInList` says when a code would be accepted.
- The locks guard `login` and the verify endpoints only. `mfa/disable` tests the password and a
  code, and `mfa/verify-setup` a code, without reading or raising any counter, so any number of wrong
  ones is let through (`RateBounds.UncountedIsUnbounded`, `ServerRuns.ManyWrongPasswords`). All
  wrong answers together are those counted, which are bounded, and those outside the counter, which
  are not (`RateBounds.AllWrongBounded`, `RateBounds.AllWrongIsReached`).
- Between interleaved requests failures overwrite each other: any number of wrong passwords checked
  before the first failure is stored count as one (`Interleaving.FailuresAreLost`). With at most `m`
  logins in flight, exactly `C(m + 5, 5) - 1` wrong passwords can get through within a lock time
  (`InFlight.PasswordsInFlight`, `InFlight.MaximumIsReached`).
- A wrong MFA answer saves the whole row as it loaded it, so it can set the login counter and its
  lock back: with one login at a time, `r` such answers let `4 * r + 5` wrong passwords through
  where five would be let (`InFlight.NinePasswords`). The bound therefore grows with their number.
- Turning MFA off, by the user or by `admin/reset-user`, leaves biometrics on
  (`ServerRuns.BiometricsWithoutMfa`). These two are the only ways in which biometrics come to be on
  without MFA, and exactly when they do is `Biometrics.StepKeepsMfa` and
  `Biometrics.AlwaysWithMfaIff`.
- `mfa/enable-biometric` with a null device turns biometrics on and erases any device; without one
  it stores none. Only then are biometrics on without a device (`Interleaving.DevicesStep`).
- An entry numbered below the first number asked for is passed over unchecked, whatever it says: on an
  honest log, any entry's body can be replaced, its number set to 0 and its hash left, and nothing
  is reported (`Tampering.AlteredEntry`, which has the exact condition for every number).
- The limits read from the configuration in `AuthService` are never used; 5, 3 and 15 minutes are
  fixed in `UsersService`, and those are the constants here.
## Model

| member | source | states |
|---|---|---|
| JsText.LinesOfTerminated | src/common/logging/siem-logger.service.ts:81 | `trim`, `split`, `filter` on lines each written with a newline give back exactly those lines |
| JsRuntime.ReadPrinted | src/common/logging/siem-logger.service.ts:97 | `JSON.parse(JSON.stringify(v))` is `v` with undefined members dropped and undefined items and numbers without a literal null, escapes and lone surrogates included, for every value but `undefined` itself |
| Json.ParsePrint | src/common/logging/siem-logger.service.ts:97 | the same of the text alone, number literals kept as they are written |
| Json.ParsePlain | src/common/logging/siem-logger.service.ts:259 | whatever text parses, the value has proper number literals, distinct keys and nothing undefined |
| Json.PrintInjective | src/common/logging/siem-logger.service.ts:97 | different parsed values have different printed forms |
| Json.PrintNormal | src/common/logging/siem-logger.service.ts:97 | dropping undefined members first changes nothing that is printed |
| Json.PrintedObjectIsLine | src/common/logging/siem-logger.service.ts:155 | a printed object holds no raw newline and no blank at either end, so it is one line of the file |
| LogEntry.ReadLine | src/common/logging/siem-logger.service.ts:120-126 | from the line written for an entry the verifier reads its number, both hashes and its nine members |
| LogEntry.PreimageKept | src/common/logging/siem-logger.service.ts:270-280 | stringifying the nine members read back reproduces the very text hashed at write time, though absent members were dropped |
| LogEntry.PreimageInjective | src/common/logging/siem-logger.service.ts:96-99 | the pre-image splits in one way only into previous hash and body, and determines the hash and what the body prints |
| LogEntry.ReadRecordWellFormed | src/common/logging/siem-logger.service.ts:259-260 | whatever line is read, its nine members are absent or values with distinct keys in order and proper numbers, so that the injectivity of pre-images applies to any file |
| LogEntry.PrintDeterminesBody | src/common/logging/siem-logger.service.ts:270-280 | two bodies read from files, absent members included, that are hashed as the same text are the same nine values as printed |
| LogEntry.GenesisIsNoDigest | src/common/logging/siem-logger.service.ts:50 | GENESIS is never a digest |
| LogDirectory.NameOrderIsDayOrder | src/common/logging/siem-logger.service.ts:144-145 | code-unit order of the file names is the order of the days, and equal names are equal days |
| LogDirectory.ListingOrderIsIrrelevant | src/common/logging/siem-logger.service.ts:246-248 | however the directory is listed, the same files are processed in the same order |
| LogDirectory.SortedUnique | src/common/logging/siem-logger.service.ts:74-76 | a sorted list of files is determined by its members |
| ChainScan.VerdictIsFirstBad | src/common/logging/siem-logger.service.ts:242-309 | for any files, readable or not, the two nested loops report the first line that cannot be read or is in range with a wrong link or hash, among the lines before each file's first number past the end; -1 if it cannot be read, its number otherwise; valid when there is none |
| ChainScan.NestedScanIsFlatScan | src/common/logging/siem-logger.service.ts:253-302 | for any files, the nested loops are one loop over the lines before each file's first number past the end |
| ChainScan.AscendingScanIsFlat | src/common/logging/siem-logger.service.ts:253-302 | where every line after a number past the end is past it too, as with ascending numbers, the nested loops are one loop over the concatenated log, readable or not |
| ChainScan.FirstBadReported | src/common/logging/siem-logger.service.ts:258-288 | the first fault is what is reported, whatever follows it: more faults, garbled lines, numbers past the end |
| ChainScan.FileIsCut | src/common/logging/siem-logger.service.ts:257-298 | one file's loop with any expected hash stops at its first bad line or hands on the hash of its last line read |
| ChainScan.NothingAfterEndIsRead | src/common/logging/siem-logger.service.ts:266 | after a number past the end nothing more of that file is read, readable or not |
| ChainScan.VerifiedIffSound | src/common/logging/siem-logger.service.ts:242-302 | a log with no number out of range verifies if and only if every line can be read, names the hash before it and carries the hash of its contents |
| ChainScan.SoundVerifies | src/common/logging/siem-logger.service.ts:234-302 | a sound log numbered from 1 verifies for every range |
| LogRuns.WriteConsistent | src/common/logging/siem-logger.service.ts:101-156 | a write keeps the chain, the files of the days and the memory consistent |
| LogRuns.RunConsistent | src/common/logging/siem-logger.service.ts:72-156 | every state reachable by writes and restarts is consistent: files are the days in order, none empty, entries chained and numbered from 1, memory is the last entry |
| LogRuns.SortedFilesAreTheDays | src/common/logging/siem-logger.service.ts:74-76 | the sorted files of a reachable state are the days in the order written |
| LogRuns.RecoveryIsNoOp | src/common/logging/siem-logger.service.ts:72-94 | after any run recovery yields the writer's memory; numbers on disk are exactly 1 to n across files and restarts; no day file is empty |
| LogRuns.HonestRunVerifies | src/common/logging/siem-logger.service.ts:234-302 | every run verifies for every start and end, the defaults for 0 and undefined included |
| LogRuns.VerifyRange | src/common/logging/siem-logger.service.ts:242-246 | the range a verification covers, for every pair of bounds given, absent or 0, in numbers |
| LogRuns.GarbledLineStartsAfresh | src/common/logging/siem-logger.service.ts:84-93 | a last line that does not parse, or is null, or lacks both members, leaves GENESIS and 0 |
| LogRuns.LineTakenUp | src/common/logging/siem-logger.service.ts:86-88 | a last line with a hash and a number leaves those, GENESIS for an empty hash |
| LoggedEntries.NextEntrySays | src/common/logging/siem-logger.service.ts:101-130 | the entry that a call of the logger adds, its hash, its line and the record read back, member by member from what was given; the clock's time only when none was given or it was empty |
| Texts.HashedTextIs | src/common/logging/siem-logger.service.ts:96-99 | the text hashed for an entry, to the character |
| Texts.LineIs | src/common/logging/siem-logger.service.ts:120-126 | the line written for an entry, to the character, undefined members left out |
| Texts.FileNameIs | src/common/logging/siem-logger.service.ts:144-145 | the name of a day's file, digit by digit |
| Texts.FilesRead | src/common/logging/siem-logger.service.ts:246-248 | the files read are exactly those whose names end in `.jsonl` |
| Texts.LinesAre | src/common/logging/siem-logger.service.ts:81 | blank lines and the space around a file do not count, the space within a line does |
| Texts.EscapesAre | src/common/logging/siem-logger.service.ts:97 | which units are written with which short escape, and that others from 32 on are written as they are |
| Texts.NumericEscapesAre | src/common/logging/siem-logger.service.ts:97 | other control characters and lone surrogates are written with four lower-case hexadecimal digits that denote them |
| Texts.WholeNumbers | src/common/logging/siem-logger.service.ts:259 | digits alone are a number literal unless a zero leads others |
| Texts.PartsOfNumbers | src/common/logging/siem-logger.service.ts:259 | a point and an exponent, signed or not, need digits after them and nothing more |
| Texts.KeysAreOrdered | src/common/logging/siem-logger.service.ts:97 | array indices come first and ascending by number, not by text; other keys stay as they were added |
| Texts.NeverTheSame | src/common/logging/siem-logger.service.ts:268 | a link that is an object, a list or NaN never matches, not even one read alike; texts match exactly when equal |
| SiemLogger.SiemLoggerService.constructor | src/common/logging/siem-logger.service.ts:44-55 | a new service has the genesis hash, number 0, no cache and no open file |
| SiemLogger.SiemLoggerService.InitializeFromLastLog | src/common/logging/siem-logger.service.ts:72-94 | memory becomes what recovery reads from the last line of the last file, or stays as it was without one |
| SiemLogger.SiemLoggerService.RecoverFiles | src/common/logging/siem-logger.service.ts:78-93 | only the newest file counts; an unreadable last line starts afresh |
| SiemLogger.SiemLoggerService.Log | src/common/logging/siem-logger.service.ts:101-141 | the entry returned continues the chain; memory, cache, file and directory are exactly the state after writing it; its hash is that of the previous hash and the nine named members in their order, and its line, parsed and as the verifier reads it, says under each of the thirteen names what was given |
| SiemLogger.SiemLoggerService.WriteLog | src/common/logging/siem-logger.service.ts:143-156 | one line is appended to the day's file and nothing else changes |
| SiemLogger.SiemLoggerService.VerifyChainIntegrity | src/common/logging/siem-logger.service.ts:234-310 | for absent or 0 bounds the range is 1 to the writer's number, otherwise the bounds given; the answer is the verdict `ChainScan` characterises on the sorted files for that range, from GENESIS on |
| SiemLogger.SiemLoggerService.VerifyFiles | src/common/logging/siem-logger.service.ts:250-302 | the outer loop stops at the first file with a verdict and carries the expected hash from file to file |
| SiemLogger.SiemLoggerService.VerifyFile | src/common/logging/siem-logger.service.ts:257-298 | the loop over the lines of one file, with its `continue` and its `break`, yields that file's outcome |
| SiemLogger.RestartAfterRun | src/common/logging/siem-logger.service.ts:57-60 | a service started on the files of an honest run takes up its memory and verifies every range |
| Tampering.VerifiedLogsBind | src/common/logging/siem-logger.service.ts:234-302 | two directories, whatever text their files hold, that verify from 1 with all numbers in range and end in the same hash hold the same entries, member by member as printed, unless two texts hashed collide |
| Tampering.SoundLogsBind | src/common/logging/siem-logger.service.ts:268-298 | the same of two sound logs, by walking back from equal last hashes, lengths not given |
| Tampering.ContentsDecide | src/common/logging/siem-logger.service.ts:253-302 | conversely contents alone decide validity: logs with the same contents both verify or neither does, so renumbering is not reported |
| Tampering.RenumberedVerifies | src/common/logging/siem-logger.service.ts:106-126 | a particular entry that verifies under number 1 and under number 2 |
| Tampering.AlteredEntry | src/common/logging/siem-logger.service.ts:261-288 | what changing an entry's body and number but not its hash comes to: nothing for a number below 1, a mismatch there for a number in range if and only if it prints differently, and for a number past the end a break at the first entry after its file if there is one |
| Tampering.HashesDiffer | src/common/logging/siem-logger.service.ts:118-128 | all hashes of a chain differ |
| Tampering.RunLeavesHonestLog | src/common/logging/siem-logger.service.ts:101-156 | what the verifier reads after any run is a sound log numbered 1 to n |
| Tampering.DeletionReported | src/common/logging/siem-logger.service.ts:268-274 | deleting entry j reports j+1, or nothing when it was the last |
| Tampering.SwapReported | src/common/logging/siem-logger.service.ts:268-274 | swapping entries j and j+1 reports j+1 |
| Tampering.ChangeReported | src/common/logging/siem-logger.service.ts:282-288 | changing entry j but not its hash reports j, if and only if the entry then prints differently |
| Tampering.RehashedChangeReported | src/common/logging/siem-logger.service.ts:268-298 | changing entry j and recomputing its hash reports j+1, or nothing at the last entry or when it prints alike |
| Tampering.TruncationVerifies | src/common/logging/siem-logger.service.ts:234-302 | a log cut off anywhere still verifies |
| EditedLogs.VerifyAll | src/common/logging/siem-logger.service.ts:234-302 | the service that wrote the log, asked without bounds, answers valid |
| EditedLogs.VerifyDeleted | src/common/logging/siem-logger.service.ts:234-302 | asked without bounds after entry j was deleted from its files, it reports j+1, or nothing when it was the last |
| EditedLogs.VerifySwapped | src/common/logging/siem-logger.service.ts:234-302 | after entries j and j+1 were swapped it reports j+1 |
| EditedLogs.VerifyChanged | src/common/logging/siem-logger.service.ts:234-302 | after the body of entry j was changed and its hash kept it reports j if the entry prints differently, and nothing otherwise |
| EditedLogs.VerifyRehashed | src/common/logging/siem-logger.service.ts:234-302 | after entry j was changed with its hash recomputed it reports j+1, or nothing at the last entry or when it prints alike |
| Users.UsersService.FindByEmail | src/users/users.service.ts:14-16 | the row with the email, none exactly when no row has it |
| Users.UsersService.FindByMfaTempToken | src/users/users.service.ts:51-55 | some row with the token, whichever the database picks; none exactly when no row has it |
| Users.UsersService.Create | src/users/users.service.ts:22-31 | one active row without failures is added, or nothing when the email is taken; ids and emails stay unique |
| Users.UsersService.IncrementFailedAttempts | src/users/users.service.ts:37-43 | the entity as loaded is saved whole with one more failure, and from the fifth on with a lock until 15 * 60 * 1000 later |
| Users.UsersService.IncrementMfaFailedAttempts | src/users/users.service.ts:107-116 | the row is loaded again and counts one more failure, from the third on with a lock until 15 * 60 * 1000 later; nothing for an unknown id |
| Users.UsersService.IsMfaLocked | src/users/users.service.ts:125-129 | true exactly for a known row whose lock lies in the future |
| Users.UsersService.ValidateBiometric | src/users/users.service.ts:147-151 | true exactly for a known row that has biometrics on and that very device |
| Lockout.FailuresWithinBudget | src/users/users.service.ts:37-49 | no sequence of requests lets more failures through than the lock's budget for the window |
| Lockout.BudgetIsReached | src/users/users.service.ts:37-49 | for every lock and window some sequence reaches the budget, so the bound is exact |
| Lockout.RateBound | src/users/users.service.ts:107-129 | the budget is at most max(1, limit - attempts) plus one per 15 minutes of the window |
| RateBounds.RunIsAdmissible | src/auth/auth.service.ts:41-54 | every run of requests is, for either counter of a user, an admissible sequence leading from its lock at the start to its lock at the end |
| RateBounds.WrongAnswersWithinBudget | src/auth/mfa/mfa.controller.ts:147-157 | so wrong answers in a window stay within the budget of the lock it starts with |
| RateBounds.PasswordRateBound | src/auth/auth.service.ts:41-54 | wrong passwords at `login` in a window number at most max(1, 5-a) + floor(W / 15 min) |
| RateBounds.MfaRateBound | src/auth/mfa/mfa.controller.ts:147-157 | wrong answers at the three verify endpoints together number at most max(1, 3-a) + floor(W / 15 min) |
| RateBounds.UncountedIsUnbounded | src/auth/mfa/mfa.controller.ts:93-108 | any number of wrong passwords or codes at turning MFA off, or codes at turning it on, is let through, locked or not, and changes nothing |
| RateBounds.WrongAnswersSplit | src/auth/mfa/mfa.controller.ts:64-108 | all wrong answers checked are the counted ones and those outside the counter |
| RateBounds.AllWrongBounded | src/auth/mfa/mfa.controller.ts:95-101 | so all wrong passwords in a window are within the budget and the wrong `disable` requests, likewise for MFA |
| RateBounds.AllWrongIsReached | src/auth/mfa/mfa.controller.ts:95-101 | for every lock, window and n some legal run has as many wrong answers checked as the budget and n more |
| RateBounds.BoundIsReached | src/users/users.service.ts:37-49 | both bounds are exact: for every user, lock and window some legal run of logins, or of logins and codes, gets as many wrong answers through |
| RateBounds.PasswordBoundIsReached | src/users/users.service.ts:37-43 | for a user with a failures and no lock some legal run of logins from lo to hi has exactly max(1, 5 - a) + (hi - lo) / 900000 wrong passwords |
| RateBounds.MfaBoundIsReached | src/users/users.service.ts:107-116 | the same of wrong MFA answers, with 3 for 5 |
| RateBounds.LoginLockLasts | src/auth/auth.service.ts:41-46 | after a failure that is the fifth or later, counted at a time, a login is refused if and only if it is checked before 15 minutes later to the millisecond |
| RateBounds.MfaLockLasts | src/auth/mfa/mfa.controller.ts:147-149 | after an MFA failure that is the third or later an attempt with the same token is let through only from 15 minutes later on |
| RateBounds.StretchWithinBudget | src/auth/auth.service.ts:41-54 | the bound holds for any stretch of any run |
| Sessions.SessionsService.CreateRefreshToken | src/sessions/sessions.service.ts:14-33 | one unrevoked row valid for seven days is added and the token is returned |
| Sessions.SessionsService.ValidateRefreshToken | src/sessions/sessions.service.ts:35-50 | true exactly when some unrevoked, unexpired row of the user matches, in whatever order rows come |
| Sessions.SessionsService.RevokeSession | src/sessions/sessions.service.ts:52-64 | exactly one matching row is revoked, whichever comes first, and none when none matches |
| Sessions.SessionsService.RevokeAllUserSessions | src/sessions/sessions.service.ts:66-68 | every unrevoked row of the user is revoked and no other changes |
| Sessions.SessionsService.CleanupExpiredSessions | src/sessions/sessions.service.ts:70-74 | exactly the rows that expire before the time are deleted, and the others stay as they are |
| Sessions.RevokeTakesOne | src/sessions/sessions.service.ts:52-64 | without assuming tokens differ: a revocation lowers the matching rows by one when there are any and touches no other row |
| Sessions.RevokedStays | src/sessions/sessions.service.ts:14-74 | over whole runs a revoked row stays as it is until it is deleted, and never comes back |
| Sessions.AcceptedIffStanding | src/sessions/sessions.service.ts:14-74 | over whole runs a token is accepted if and only if it was created for the user less than seven days ago and not revoked since |
| Sessions.RunDescribed | src/sessions/sessions.service.ts:14-74 | after any run the table has a row for each creation that was not cleaned up, revoked exactly when a later operation revoked it, and no other row |
| Sessions.CleanupChangesNoAnswer | src/sessions/sessions.service.ts:70-74 | cleaning up changes no answer at any later time |
| AuthEvents.StepKeepsTable | src/users/entities/user.entity.ts:12-17 | every event keeps ids and emails unique |
| Effects.LoginGuards | src/auth/auth.service.ts:41-56 | a login of a user is refused while the lock ends after the time it is checked, and only then; otherwise a wrong password can be counted, and a right one is pending exactly with MFA on |
| Effects.CleanupEffect | src/sessions/sessions.service.ts:70-74 | a row is there afterwards exactly when it expires at or after the time, and is the same |
| Effects.MfaEffects | src/auth/mfa/mfa.controller.ts:151-162 | a wrong answer adds one failure and locks from the third; a right one sets the counter back, stores the codes left and erases the token |
| Effects.TokenLives | src/auth/auth.service.ts:56-63 | the token a login returned is open until 5 * 60 * 1000 after it and no longer |
| AuthServices.AuthService.Login | src/auth/auth.service.ts:32-93 | a login does exactly the one event its answer stands for, on users, sessions and audit log together, and the password decides which; it is forbidden if and only if the user with the email has a lock that ends after the time it is checked |
| AuthServices.AuthService.WrongPassword | src/auth/auth.service.ts:48-52 | a wrong password counts one failure and leaves one entry |
| AuthServices.AuthService.LoginKnown | src/auth/auth.service.ts:41-92 | for a user that was found, lock and password decide between refusal, one more failure and what a right password leads to |
| AuthServices.AuthService.LoggedIn | src/auth/auth.service.ts:54-92 | a correct password leads to a pending MFA login exactly when MFA is on, to a session otherwise |
| AuthServices.AuthService.Refresh | src/auth/auth.service.ts:95-142 | a refresh succeeds exactly when signature, stored session and active user allow it, replacing one session, and changes nothing otherwise |
| AuthServices.AuthService.Logout | src/auth/auth.service.ts:144-153 | of the user's unrevoked sessions that match the token one is revoked, or there was none, every other row stays, and it is audited in any case |
| AuthServices.MfaController.Open | src/auth/mfa/mfa.controller.ts:137-149 | the checks shared by the verify endpoints: known token, not expired, not locked |
| AuthServices.MfaController.Verify | src/auth/mfa/mfa.controller.ts:130-168 | a pair is issued only for a right code for the secret in the row that holds the token, a wrong one let through is always counted at that time, and nothing happens only when the token is not open or the check throws; the event is the one the answer stands for |
| AuthServices.MfaController.VerifyBackup | src/auth/mfa/mfa.controller.ts:170-217 | the same with the stored column and the upper-cased code as judge, the codes left being stored encrypted; no pair is issued while every column is encrypted or null |
| AuthServices.ListDecides | src/auth/mfa/mfa.controller.ts:191-207 | for a column that holds a list as it is the endpoint's judgement is right exactly for its unused codes, and what is then stored is the list with the first copy marked |
| AuthServices.MfaController.VerifyBiometric | src/auth/mfa/mfa.controller.ts:245-283 | for an open token a pair is issued if and only if biometrics are on for its row and the device in it is the one presented; otherwise a failure is counted |
| AuthServices.MfaController.Setup | src/auth/mfa/mfa.controller.ts:39-53 | a known user's secret is stored encrypted |
| AuthServices.MfaController.VerifySetup | src/auth/mfa/mfa.controller.ts:58-84 | MFA is turned on if and only if the user is known and the code is right for its secret, with the new codes stored encrypted; a wrong code is answered and not counted; otherwise no row changes |
| AuthServices.MfaController.Disable | src/auth/mfa/mfa.controller.ts:86-113 | MFA is turned off if and only if the user is known, the password is right and the code is right for its secret, and the secret goes too; a wrong password, and after it a wrong code, is answered as such and not counted |
| AuthServices.MfaController.EnableBiometric | src/auth/mfa/mfa.controller.ts:219-235 | biometrics are turned on exactly for a user with MFA |
| AuthServices.MfaController.DisableBiometric | src/auth/mfa/mfa.controller.ts:237-243 | biometrics are turned off for a known user; for another nothing happens |
| AuthServices.AdminController.UnlockUser | src/auth/admin.controller.ts:13-34 | both counters and locks of the user with the email are cleared, of no other |
| AuthServices.AdminController.ResetUser | src/auth/admin.controller.ts:36-63 | also MFA, token and codes are cleared; biometric fields stay |
| MfaProvenance.RunTokensArePending | src/users/users.service.ts:76-99 | in every reachable state a row's temporary token is that of the user's open pending login, and there is none otherwise |
| MfaProvenance.EveryPairHasItsLogin | src/auth/mfa/mfa.controller.ts:137-162 | every token pair an MFA endpoint issues goes back to an earlier pending login of that user that returned the token presented, at most five minutes before, with nothing in between that ended it |
| MfaProvenance.LoginsAreUsedOnce | src/auth/mfa/mfa.controller.ts:177-211 | two pairs never go back to the same login |
| MfaProvenance.TokenNamesItsLogin | src/auth/auth.service.ts:56-71 | when tokens are never repeated, the presented token names that login among all users' |
| MfaProvenance.PairsWithinLogins | src/auth/mfa/mfa.controller.ts:252-276 | a user is issued no more MFA pairs than pending logins begun |
| AuditReplay.AuditTellsTheCounters | src/auth/auth.service.ts:35-63 | after any run the failure counter of each user is the number of its LOGIN_FAILED entries since its last LOGIN_SUCCESS, MFA_PENDING or admin reset, and the audit log holds nothing else than those entries |
| AuditReplay.AuditTellsTheLogins | src/auth/auth.service.ts:32-93 | over any run the logins, however they end, are exactly the LOGIN_FAILED, LOGIN_LOCKED, MFA_PENDING and LOGIN_SUCCESS entries |
| AuditReplay.AuditTellsTheSessions | src/auth/auth.service.ts:81-132 | sessions ever created are the LOGIN_SUCCESS plus the TOKEN_REFRESH entries |
| AuditReplay.RunsAreSessionRuns | src/auth/auth.service.ts:95-153 | the sessions table after a run of requests is that of a legal run of session operations |
| AuditReplay.TokenAcceptedIffStanding | src/sessions/sessions.service.ts:35-64 | after any run of requests a token is accepted if and only if the operations of the requests created it less than seven days ago and revoked nothing of it since; `SessionRuns` says so of the requests |
| SessionRuns.TokenAcceptedIff | src/sessions/sessions.service.ts:14-74 | after any run of requests a token is accepted for a user at a time if and only if a login or refresh stored it for the user less than 7 * 24 * 60 * 60 * 1000 before, no later logout or refresh of the user presented it, and no later request revoked all the user's sessions |
| SessionRuns.LoggedOutIsRefused | src/auth/auth.service.ts:144-153 | a token presented at a logout of its user is refused at every later time, whatever comes between |
| SessionRuns.UnstoredIsRefused | src/auth/auth.service.ts:78-81 | a text that no request stored for the user is refused, the returned signed refresh token among them |
| AuditReplay.RefreshKeepsOpenSessions | src/auth/auth.service.ts:123-124 | a refresh keeps the number of the user's unrevoked rows and leaves other users' alone |
| BackupCodes.ParseStored | src/auth/mfa/backup-codes.service.ts:27-37 | parsing stringified codes gives them back |
| Texts.StoredCodesAre | src/auth/mfa/backup-codes.service.ts:35-37 | the text stored for a list of codes, to the character |
| BackupCodes.AttemptSpendsOne | src/auth/mfa/backup-codes.service.ts:39-61 | an attempt is accepted if and only if the code is among the unused ones, and spends exactly one copy of it, the first, which is marked as used at that time |
| BackupCodes.CodesAreConserved | src/auth/mfa/backup-codes.service.ts:39-61 | over any attempts, codes left plus codes accepted are the codes there were, duplicates counted |
| BackupCodes.NeverMoreThanIssued | src/auth/mfa/backup-codes.service.ts:15-61 | no code is accepted more often than it was issued |
| BackupCodes.BackupCodesService.ValidateBackupCode | src/auth/mfa/backup-codes.service.ts:39-61 | the service's answer and the codes it returns are those the conservation results are about, for any stored text |
| BackupCodes.BackupCodesService.CountRemainingCodes | src/auth/mfa/backup-codes.service.ts:63-66 | the count is the number of unused codes with multiplicity |
| BackupLogins.EncryptedCodesAreRefused | src/auth/token-crypt/token-crypt.service.ts:13-30 | no input is accepted against a column holding base64 |
| BackupLogins.BackupLoginNeverSucceeds | src/auth/mfa/mfa.controller.ts:191-207 | in no run whose columns are written encrypted and judged as they are does a login with a backup code succeed; `Server` keeps its runs such |
| BackupLogins.AcceptsIffUnusedInList | src/auth/mfa/mfa.controller.ts:191-194 | a code is accepted if and only if the column itself parses as a list that holds it unused, which needs it to start with a bracket |
| Server.Server.constructor | src/auth/auth.service.ts:20-30 | a service with empty tables and an empty record |
| Server.Server.Recorded | src/auth/auth.service.ts:32-153 | a request that did an event possible at that time extends the record to a legal run that leads to the tables as they are |
| Server.Server.Login | src/auth/auth.service.ts:32-93 | the record grows by the event the login was, and stays a legal run to the tables |
| Server.Server.Refresh | src/auth/auth.service.ts:95-142 | the same of a refresh, which succeeds exactly under signature, stored session and active user |
| Server.Server.Logout | src/auth/auth.service.ts:144-153 | the same of a logout: the unrevoked rows that match the token are one fewer, or still none |
| Server.Server.Verify | src/auth/mfa/mfa.controller.ts:130-168 | the same of a code, judged and counted as the endpoint does |
| Server.Server.VerifyBackup | src/auth/mfa/mfa.controller.ts:170-217 | the same of a backup code, and no pair is ever issued |
| Server.Server.VerifyBiometric | src/auth/mfa/mfa.controller.ts:245-283 | the same of a device: a pair is issued if and only if the row of the token has biometrics on and that device |
| Server.Server.EncryptedSoFar | src/auth/mfa/mfa.controller.ts:72-78 | after any requests no column holds codes that are not encrypted |
| ServerRuns.WrongAnswersBounded | src/auth/mfa/mfa.controller.ts:147-157 | after any requests, in any stretch of them the wrong answers at `login`, or at the verify endpoints, stay within the budget, and all wrong ones are those and the ones nothing counts |
| ServerRuns.WrongDisables | src/auth/mfa/mfa.controller.ts:93-101 | wrong passwords presented to turn MFA off, however many and however locked the user, are all checked, none is counted |
| ServerRuns.ManyWrongPasswords | src/auth/mfa/mfa.controller.ts:93-101 | for every n a sequence of requests in which n wrong passwords are checked at one time and the counter stays 0 |
| ServerRuns.IssuedPairHasLogin | src/auth/mfa/mfa.controller.ts:137-162 | every pair the service ever issued at a verify endpoint has its own pending login |
| ServerRuns.CountersAreAudited | src/audit-log/audit-log.service.ts:17-31 | the audit table of the service retells its failure counters |
| ServerRuns.RefreshAfterLogin | src/auth/auth.service.ts:78-81 | a right login followed by a refresh with the token it returned is refused, unless bcrypt takes that token for a stored one |
| ServerRuns.ReturnedTokenIsRefused | src/auth/auth.service.ts:101-109 | a particular login whose returned refresh token is refused |
| ServerRuns.IssuedCodeIsRefused | src/auth/mfa/mfa.controller.ts:191-199 | a particular user whose issued backup code is refused and counted as wrong, though the codes as issued would accept it |
| Interleaving.NextKeepsPairs | src/users/users.service.ts:37-49 | any one database call, stale copies saved back whole included, keeps every row and every copy paired |
| Interleaving.PairsSurviveInterleaving | src/users/users.service.ts:64-145 | under every interleaving a row is locked exactly from the fifth failure, MFA-locked exactly from the third, has a temporary token exactly with an expiry, biometrics on exactly when preferred, a device only with biometrics on, and backup codes whenever MFA is on |
| Interleaving.DevicesStep | src/auth/mfa/mfa.controller.ts:219-235 | a device whenever biometrics are on is kept by a step if and only if it does not turn biometrics on with a null device, or without one for a row that has none |
| Interleaving.FailuresAreLost | src/users/users.service.ts:37-43 | any number of failures whose requests loaded the same row leave it as one failure does |
| Interleaving.FailureCountsIff | src/users/users.service.ts:37-43 | a failure saved counts one more than before if and only if its request loaded the count that is still stored |
| InFlight.SavedWithin | src/users/users.service.ts:37-43 | with at most m logins and any wrong MFA answers in flight, whatever is in flight at the start, the failures saved in a window are bounded by what one lock time lets through, for each lock time begun and each wrong MFA answer saved |
| InFlight.PasswordsInFlight | src/auth/auth.service.ts:41-54 | that is at most C(m+5, 5) - 1 wrong passwords at `login` for each 15 minutes begun and each wrong MFA answer saved |
| InFlight.MaximumIsReached | src/auth/auth.service.ts:41-54 | with logins alone that many get through at one time, so within a lock time the number is exact |
| InFlight.NinePasswords | src/users/users.service.ts:107-116 | with one login at a time and one wrong MFA answer nine wrong passwords get through where five would, with r such answers 4r + 5 |
| InFlight.LoadIsAdmit | src/auth/auth.service.ts:35-44 | loading an unlocked row is being let through with a copy of its counter |
| InFlight.SaveIsSave | src/users/users.service.ts:37-43 | saving a stale row with one more failure is the save of that copy, over whatever the counter has become |
| InFlight.LoadIsLoad | src/users/users.service.ts:107-109 | loading the row for a wrong MFA answer keeps a copy of the login counter |
| InFlight.SaveMfaIsRestore | src/users/users.service.ts:111-115 | saving that row with one more MFA failure writes the copy of the login counter back |
| Biometrics.StepKeepsMfa | src/users/users.service.ts:64-74 | an event keeps biometrics only with MFA if and only if it does not turn MFA off, by `disable` or by the admin's reset, while they are on |
| Biometrics.BiometricsGoWithMfaIff | src/users/users.service.ts:57-74 | after any run biometrics go with MFA if and only if the user's last request about them did not turn them on, or the last about MFA turned it on |
| Biometrics.AlwaysWithMfaIff | src/users/users.service.ts:131-145 | they go with MFA throughout a run if and only if MFA is never turned off while they are on |
| Biometrics.BiometricLoginHasItsDevice | src/auth/mfa/mfa.controller.ts:266-276 | over any run, a pair issued for a device means that the device is the one the user's requests about biometrics gave last, and that they are on |
| Biometrics.RefusedDeviceIsAnother | src/auth/mfa/mfa.controller.ts:266-271 | a device counted as wrong means that biometrics were off or the device last given is another |
| ServerRuns.BiometricsWithoutMfa | src/auth/admin.controller.ts:46-57 | particular requests, ending with `disable` or with the admin's reset, after which biometrics are on and MFA is off |
| Interleaving.BiometricsOutliveMfa | src/users/users.service.ts:64-74 | the same at a sequence of database calls |
| LokiTransport.EntriesAreConserved | src/common/logging/loki-transport.service.ts:35-61 | entries handed over followed by those buffered are the entries pushed, in order, each once; no request is empty; entries wait only while the timer runs |
| LokiTransport.ClosingSendsEverything | src/common/logging/loki-transport.service.ts:140-146 | after closing, or a tick, nothing is left behind |
| LokiTransport.TimerRunsIff | src/common/logging/loki-transport.service.ts:25-28 | the timer runs exactly when something was pushed and nothing closed since |
| LokiTransport.WaitingSince | src/common/logging/loki-transport.service.ts:35-39 | the buffer holds exactly what was pushed since the last tick or closing, in order |
| LokiTransport.Transport.StartFlushTimer | src/common/logging/loki-transport.service.ts:25-28 | the timer runs and nothing else changes |
| LokiTransport.Transport.FlushLogs | src/common/logging/loki-transport.service.ts:35-89 | the buffer is emptied into one request, or nothing happens when it is empty |
| LokiTransport.Transport.Format | src/common/logging/loki-transport.service.ts:114-118 | the entry is buffered and the timer runs |
| LokiTransport.Transport.CloseLokiLogger | src/common/logging/loki-transport.service.ts:140-146 | the timer is stopped and the buffer is empty, handed over |
| LokiTransport.NanoTimeIsOrdered | src/common/logging/loki-transport.service.ts:91-95 | the rounded product is within 128 of ms times 10^6 and strictly increasing in ms while below 2^61 |
| LokiTransport.NanoTimeIsNearest | src/common/logging/loki-transport.service.ts:91-95 | from 2006 to 2043 the time stamp is the multiple of 256 nearest to ms times 10^6, of two equally near ones the even one |
| LokiTransport.SpacingBound | src/common/logging/loki-transport.service.ts:93 | doubles below 2^(53+k) are at most 2^k apart |

## Left out

- JsRuntime.ReadPrinted: `toJSON`, BigInt and cyclic values are not modelled; which text a number is printed as is left to the runtime, and safe integers are taken to be printed in full and compared exactly, and a log holds fewer than 2^53 entries.
- Json.ParsePrint: number literals are kept as they are written; `JsRuntime.ReadPrinted` adds their reading.
- LogEntry.PreimageInjective: SHA-256 and the UTF-8 form of its input are one abstract function of the text.
- SiemLogger.SiemLoggerService.InitializeFromLastLog: a last line whose `hash` is a truthy value other than a string, or whose number is not written as a whole number, is taken as missing where the code would keep it.
- SiemLogger.SiemLoggerService.RecoverFiles: a last line whose `hash` is a truthy value other than a string, or whose number is not written as a whole number, is taken as missing.
- LogRuns.RunConsistent: a line is written atomically and at once, and a file is created together with its first line; torn lines, stream buffering and write errors are not modelled; years have four digits.
- SiemLogger.SiemLoggerService.VerifyFile: the two nested loops are methods of their own, and a line is given to the inner one as it parses; the `details` text and the unread `foundStart` flag are left out.
- Tampering.VerifiedLogsBind: does not bind sequence numbers and the algorithm name, because the code does not hash them, nor what printing does not tell apart.
- Sessions.SessionsService.ValidateRefreshToken: the clock is read once for all rows; rows do not change during one call.
- RateBounds.PasswordRateBound: requests are served one after the other, and only passwords tried at `login` are meant; `InFlight.PasswordsInFlight` and `RateBounds.AllWrongBounded` have the rest.
- InFlight.PasswordsInFlight: the number of wrong MFA answers saved is counted, not bounded, and with them the number is a bound and not the exact maximum; a right password and an admin reset, which set the counter back too, are left out; the lock is checked at the time the row is loaded.
- BackupLogins.AcceptsIffUnusedInList: a list with elements of another shape counts as one on which the service throws, where the code accepts an element without `used`.
- MfaProvenance.EveryPairHasItsLogin: requests are served one after the other.
- Biometrics.AlwaysWithMfaIff: requests are served one after the other.
- AuditReplay.AuditTellsTheCounters: requests are served one after the other; admin resets, which are not audited, are marked in the journal.
- Server.Server.Login: requests are served one after the other; `Interleaving` has what survives otherwise.
- Interleaving.PairsSurviveInterleaving: covers the pairing of fields; rates, provenance and audit replay are not claimed under interleaving.
- BackupCodes.ParseCodes: a stored list with elements that are not backup codes counts as one on which the service throws; the date of use is kept as its ISO text; generating codes is left out, the codes issued being a parameter.
- BackupLogins.BackupLoginNeverSucceeds: encryption is an arbitrary function with base64 output; its random vector is not modelled.
- LokiTransport.NanoTimeIsOrdered: dates before 1970, invalid dates and the printing of the number are left out.
- LokiTransport.Transport.FlushLogs: labels, payload and HTTP are left out; entries have three of their fields.
- AuthServices.AuthService.Login: bcrypt, token generation, JWT signing and row ids are parameters; freshness of tokens is a hypothesis where a result needs it.
- The plain row updates of `UsersService`, the insert of `AuditLogService` and most lemmas of `Effects` have no rows above: they spell out in fields and numbers what one request or one update writes.
- JWT, TOTP, AES-GCM, scrypt, bcrypt and random generation: library code.
- HTTP, validation of request bodies, guards, throttling, TypeORM and Postgres beyond rows, unique keys and whole-row saves.
- `forwardToLoki`, both `getEventType` tables, `sanitizeLabel`, `extractLogData`, `getStatus`, token `verify` and `findByUserId`: branch tables and reads without state.
