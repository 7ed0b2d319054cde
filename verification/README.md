# Verified model of the PAFS backend API

Dafny models of the parts of the backend that hold real state, arithmetic or parsing, with proofs of what they
guarantee. `dafny verify dfyconfig.toml` checks everything.

| modules | what they model |
|---|---|
| `AuthCaches`, `TokenValidation` | the two-tier authentication cache of one server instance, and the validate function |
| `SessionProtocol`, `SessionBounds`, `SessionSafety` | any number of instances over one user table, with login, refresh, logout and validate split at every await; time bounds and what a superseded session can still do |
| `ZipReader`, `ZipRoundTrip`, `ZipContents` | the ZIP Central Directory reader, the matching printer, and the shapefile check |
| `FundingTables`, `LedgerRuns`, `FundingServices`, `FundingOutcomes` | the two funding tables, every statement that changes them, requests that overlap, and what each operation leaves, row by row |
| `YearSave`, `SavedYears`, `YearInterleaving`, `YearSchedules`, `YearRepeats` | saving the estimated spend of several years, what a saved year holds, and all statements of all rows interleaved |
| `ContributorCleanup`, `ContributorNames`, `ContributorRace`, `ContributorSplit` | renaming and deleting contributors, and creating their rows at the same time |
| `AreaHierarchy`, `ProgrammeJoin`, `AreaPermissions` | areas and their parents looked up one by one, at start-up, in bulk and downwards, and the permissions built on them |
| `Passwords`, `PasswordRace`, `PasswordOrder` | password reset, history and single-use tokens, one at a time and overlapping |
| `Timelines`, `FinancialYears` | what a save of a timeline stage checks and writes, and financial-year arithmetic |
| `ReferenceNumbers`, `AccountAreas` | the reference counter and the comparison of assigned areas |
| `Wrappers`, `JsMaps`, `MapSums`, `Sorting`, `Decimal`, `Texts` | shared: results, JavaScript's insertion-ordered Map, sums over maps, sorting, decimal and separated text |

## How the system is modelled

- A table is a map whose keys are its unique keys (`prisma/schema.prisma`). One database statement is one atomic
  step, and a statement that would break a unique key is refused. Reads see the latest write: there are no replicas.
- Code between two awaits is one step. Handlers of different requests interleave freely at the awaits; where the source
  starts work with `Promise.all`, its statements interleave too.
- Sessions: one clock for all instances; the latency of a validation is the time from its start to its answer, and is a
  parameter of the theorems. A new session id is new. A handler may end with an exception at any await, and an instance may restart.
- Where the source changes objects in place there is a class whose methods are proved against functions on
  values; the theorems are about those functions.
- Each property that the code does not have is stated as the exact condition under which it does, with an example.

## Where the code and its comments disagree

The models follow the code.

- `src/plugins/projects/upsert-project/upsert-project.js:173-177` calls clean-up and creation of contributor rows safe to run
  in parallel because their targets are disjoint. A rename moves a row to a name that the other step may have
  created. They are safe exactly when there are no years, or the list loses no name, or it gains none:
  `ContributorSplit.SafeInParallelExactly`, with `ContributorRace.RenamedAmountLost` and `ContributorRace.PlaceholderRenameRefused`.
- `src/plugins/file-upload/helpers/validation-helpers.js:76-79` says that the last 65536 bytes hold the end record with any
  comment of up to 65535 bytes. 22 + 65515 bytes no longer fit: `ZipRoundTrip.LongCommentIsMissed`.
- `src/plugins/projects/helpers/area-hierarchy.js:45-46` says that a pre-warmed entry is identical to a fetched one.
  It is so under a condition on the types: `AreaHierarchy.PreWarmAgreesExactlyWhen`.
- `src/plugins/jwt/jwt-auth.js:113-115` calls the eviction on the instance that handles a login instant, with zero window. A request that
  read the row before the login is accepted there afterwards: `SessionSafety.EvictedForGood` and
  `SessionSafety.EvictedIsAcceptedAgain`.
- `src/plugins/jwt/jwt-auth.js:116` says that the cached result lives as long as an access token. It lives 15 minutes; the
  default in `src/config/auth.js` for tokens is 25 minutes.
- `src/plugins/auth/services/auth-service.js:407-481` checks and replaces the session in two statements, so one refresh token can
  be used twice at once: `SessionSafety.RefreshedAgainOnlyIfPending` and `SessionSafety.OneTokenRefreshedTwice`.

## Model

| member | source | states |
|---|---|---|
| `SessionBounds.AcceptedSessionIsRecent` | src/plugins/jwt/jwt-auth.js:152-290 | In any run of any number of instances, whatever handlers interleave: a token accepted without falling back after a failed read names the session that the user's row had at some instant of the last 10 s plus the request latency. |
| `SessionBounds.AcceptedSessionIsRecentAtomic` | src/plugins/jwt/jwt-auth.js:118-122 | Without latency the bound is the 10 s that the source states. |
| `SessionBounds.AcceptedUserWasEntitled` | src/plugins/jwt/jwt-auth.js:54-83 | Even when reads fail: within the last 15 minutes (plus twice the latency) the user's row had this session, was neither disabled nor locked, and had the role that the reply carries. |
| `SessionSafety.BoundIsReached` | src/plugins/jwt/jwt-auth.js:222-290 | The first bound cannot be lowered: for every latency some run accepts a session superseded exactly 10 s plus that latency before. |
| `SessionSafety.SupersededForever` | src/plugins/auth/services/auth-service.js:222-251 | Once a session has been the database session and no longer is, no later state of the run has it again. |
| `SessionSafety.CachesStayBounded` | src/plugins/jwt/jwt-auth.js:124-191 | In every state of every run each tier of each instance's cache is well formed and holds at most 500 entries. |
| `SessionSafety.EvictionIsComplete` | src/plugins/auth/sessions/login.js:41-44 | The eviction that ends a login or refresh leaves no cached result of that user on the instance. |
| `SessionSafety.EvictedForGood` | src/plugins/jwt/jwt-auth.js:233-290 | After such an eviction a superseded session is accepted again on that instance in some continuation if and only if a handler is in flight there that is past its read, or whose version read is still to fail. |
| `SessionSafety.EvictedIsAcceptedAgain` | src/plugins/jwt/jwt-auth.js:233-290 | Such a state is reached: one instance handles a login, evicts, and then accepts the superseded session for a request that had read the row before. |
| `SessionSafety.StepSetsSession` | src/plugins/auth/services/auth-service.js:222-481 | A login and a refresh give the user their new session, a logout none, and no other step but an edit of the row changes a session. |
| `SessionSafety.LogoutChecks` | src/plugins/auth/services/auth-service.js:370-386 | A logout goes on only while its session is the stored one. |
| `SessionSafety.RefreshChecks` | src/plugins/auth/services/auth-service.js:407-481 | A refresh goes on only while its session is the stored one and the user is not disabled. |
| `SessionSafety.LogoutSupersedes` | src/plugins/auth/services/auth-service.js:370-400 | The write of a logout supersedes the session and leaves its eviction to do. |
| `SessionSafety.LogoutEvicts` | src/plugins/auth/services/auth-service.js:395-400 | The eviction that ends a logout takes that session's result and the user's version on the instance; all other entries, and the other instances, stay. |
| `SessionSafety.LoggedOutIsGone` | src/plugins/jwt/jwt-auth.js:233-290 | After it the session has no result on that instance, and if no handler is in flight there for it, no continuation accepts it. |
| `SessionSafety.RefreshedAgainOnlyIfPending` | src/plugins/auth/services/auth-service.js:407-481 | A superseded refresh token buys another session if and only if a refresh with it has already passed its check. |
| `SessionSafety.RefreshedOnceAtOnce` | src/plugins/auth/services/auth-service.js:407-481 | In any run in which the write of a refresh follows its check at once, a token buys one session. |
| `SessionSafety.OneTokenRefreshedTwice` | src/plugins/auth/services/auth-service.js:407-481 | A run in which the check and the unconditional write of two refreshes interleave and one token buys two sessions. |
| `AuthCaches.AuthKeyInjective` | src/plugins/jwt/jwt-auth.js:131-150 | Different users or sessions never share a cache key. |
| `AuthCaches.InvalidateUserExact` | src/plugins/jwt/jwt-auth.js:184-192 | invalidateUser removes exactly the entries of that user: user 1 is not taken for user 12. |
| `AuthCaches.OperationsKeepValid` | src/plugins/jwt/jwt-auth.js:127-202 | Every cache operation keeps the insertion order and the entries consistent, and neither tier over 500. |
| `AuthCaches.InvalidateExact` | src/plugins/jwt/jwt-auth.js:177-180 | Evicting a session removes its key from the results and the user's from the versions, and leaves every other entry of both. |
| `AuthCaches.LookupExact` | src/plugins/jwt/jwt-auth.js:131-142 | A result is found up to the instant of its expiry and after it is gone from the entries. |
| `AuthCaches.LookupVersionExact` | src/plugins/jwt/jwt-auth.js:152-162 | The same for a version; a stored null is not found. |
| `AuthCaches.StoreExact` | src/plugins/jwt/jwt-auth.js:144-172 | A result is stored until 900,000 ms later and a version until 10,000 ms later; at most the oldest entry goes for it, and only at 500. |
| `AuthCaches.AuthCache.Get` | src/plugins/jwt/jwt-auth.js:131-142 | get returns the unexpired entry, deletes an expired one, and changes nothing else. |
| `AuthCaches.AuthCache.Set` | src/plugins/jwt/jwt-auth.js:144-150 | set evicts the oldest entry at 500 and stores the result for 15 minutes. |
| `AuthCaches.AuthCache.GetSessionVersion` | src/plugins/jwt/jwt-auth.js:152-162 | The version lookup, where a stored null reads as a miss. |
| `AuthCaches.AuthCache.SetSessionVersion` | src/plugins/jwt/jwt-auth.js:164-172 | The version is stored for 10 s, with the same eviction. |
| `AuthCaches.AuthCache.InvalidateSession` | src/plugins/jwt/jwt-auth.js:177-180 | One session's result and the user's version go, stated on the entries themselves; every other entry stays. |
| `AuthCaches.AuthCache.InvalidateAllOf` | src/plugins/jwt/jwt-auth.js:184-192 | The loop over all keys deletes what the specification deletes, whose exact content is InvalidateUserExact. |
| `TokenValidation.AfterColdAccept` | src/plugins/jwt/jwt-auth.js:204-256 | For 10 s after that it is accepted whatever happens to the row; for the rest of the 15 minutes the session id alone decides, or a failed read; the credentials stay those to which the row entitled its user at the first. |
| `TokenValidation.VerifySessionVersion` | src/plugins/jwt/jwt-auth.js:208-231 | Null, the mismatch code or the missing-account code, with the caches left as stated in each case, a failed read included. |
| `TokenValidation.Validate` | src/plugins/jwt/jwt-auth.js:233-290 | The whole validate function agrees with the two phases that the protocol interleaves; what they answer and evict is ColdAnswers, WarmAnswers and RejectionEvicts. |
| `TokenValidation.ColdAnswers` | src/plugins/jwt/jwt-auth.js:54-83 | Without a cached result: which row, or failed read, gives which error, in order, and which row is accepted with which role. |
| `TokenValidation.WarmAnswers` | src/plugins/jwt/jwt-auth.js:204-256 | With a cached result: what the cached or read version decides, a failed read accepting it. |
| `TokenValidation.RejectionEvicts` | src/plugins/jwt/jwt-auth.js:222-256 | When a cached result is rejected, its key and the user's version key are gone; all other results stay, and all other versions but the oldest where that tier was full. |
| `TokenValidation.RejectedStaysOut` | src/plugins/jwt/jwt-auth.js:177-256 | So the next validation of that token on that instance accepts only a row that entitles the user to the credentials, and a failed read does not accept it. |
| `ZipReader.LastSignatureExact` | src/plugins/file-upload/helpers/validation-helpers.js:88-95 | The backwards scan finds an offset exactly when it holds the signature and no later one does. |
| `ZipReader.NamesAreFew` | src/plugins/file-upload/helpers/validation-helpers.js:103-125 | On arbitrary bytes each step takes at least 46 of them, so the loop ends and the names are at most a 46th of the bytes. |
| `ZipReader.FindEocdOffset` | src/plugins/file-upload/helpers/validation-helpers.js:88-95 | The loop over the buffer, with every read in bounds, computes that offset. |
| `ZipReader.ParseCentralDirectory` | src/plugins/file-upload/helpers/validation-helpers.js:103-125 | The record loop on arbitrary bytes, with every read in bounds, returns the names that the recursive reading defines; which those are of a real archive is ZipRoundTrip.ParsePrinted. |
| `ZipReader.ReadZipCentralDirectory` | src/plugins/file-upload/helpers/validation-helpers.js:143-179 | The two-request reader computes ReadNames, whose meaning ZipRoundTrip.RoundTrip and ReadsExactlyTheFiles give. |
| `ZipRoundTrip.FindsEndRecord` | src/plugins/file-upload/helpers/validation-helpers.js:82-95 | The scan of the last 64 KB stops at the real end record if and only if the archive comment has at most 65514 bytes and no signature follows. |
| `ZipRoundTrip.FetchesDirectory` | src/plugins/file-upload/helpers/validation-helpers.js:156-176 | Slice or second request: both give exactly the bytes of the directory, and the second is never an empty range. |
| `ZipRoundTrip.ParsePrinted` | src/plugins/file-upload/helpers/validation-helpers.js:103-125 | Parsing printed records, with any extra fields and comments, gives in order the names that are empty or do not end in 47. |
| `ZipRoundTrip.RoundTrip` | src/plugins/file-upload/helpers/validation-helpers.js:88-179 | Reading a printed archive returns exactly those names in order; with a longer comment it reports that the end record is missing. |
| `ZipRoundTrip.RoundTripWithoutComment` | src/plugins/file-upload/helpers/validation-helpers.js:88-179 | Without a comment no condition on the bytes is needed. |
| `ZipRoundTrip.ReadsExactlyTheFiles` | src/plugins/file-upload/helpers/validation-helpers.js:103-125 | Of a printed archive no name with 47 as its last byte is read, whatever the stem, and every other name, the empty one too, as often as there are entries of it. |
| `ZipRoundTrip.FileNamesKeep` | src/plugins/file-upload/helpers/validation-helpers.js:114-121 | The names of entries put together are those of the parts in the same order; one entry gives its name, or nothing if its last byte is 47. |
| `ZipRoundTrip.LongCommentIsMissed` | src/plugins/file-upload/helpers/validation-helpers.js:76-80 | The claim that 65536 bytes always cover the end record is false: an archive with a comment of 65515 bytes is not read. |
| `ZipRoundTrip.CommentHidesFiles` | src/plugins/file-upload/helpers/validation-helpers.js:88-95 | An archive whose comment ends with the bytes of an empty end record is read as one without files. |
| `ZipContents.ExtensionMeans` | src/plugins/file-upload/helpers/validation-helpers.js:33-38 | The computed extension is the lower-cased text after the last dot, or the whole name when there is none. |
| `ZipContents.LowerExactly` | src/plugins/file-upload/helpers/validation-helpers.js:33-38 | Two byte texts are equal in lower case if and only if they differ at most in the case of letters. |
| `ZipContents.AcceptsExactlyCompleteArchives` | src/plugins/file-upload/helpers/validation-helpers.js:23-58 | From bytes to verdict: accepted if and only if the archive holds an entry whose name does not end in 47 and every required extension belongs to one. |
| `ZipContents.VerdictExactly` | src/plugins/file-upload/helpers/validation-helpers.js:23-58 | Empty without files; else exactly the required extensions that no file has are missing. |
| `FundingTables.ExecKeepsTotals` | src/plugins/projects/services/project-funding-sources-service.js:43-355 | After each single statement every year row's total is the sum of its 14 columns, null as 0. |
| `FundingTables.ExecKeepsRows` | src/plugins/projects/services/project-funding-contributors-service.js:140-289 | A statement leaves every contributor with a row if and only if it deletes no row in use and creates none for a row that is gone. |
| `FundingTables.NullColumnsExactly` | src/plugins/projects/services/project-funding-sources-service.js:260-355 | Nulling columns takes exactly their amounts off each total of the project and leaves other columns, rows and projects as they were. |
| `FundingTables.SafeKeepsSound` | src/plugins/projects/services/project-funding-sources-service.js:43-355 | A statement that satisfies those conditions keeps totals, identity of rows and references together. |
| `FundingTables.OverlapOrphans` | src/plugins/projects/services/project-funding-sources-service.js:110-147 | On any ledger the two statements of a year's deletion, with another request's insert between them, orphan a contributor, although each of the first two is harmless. |
| `LedgerRuns.TotalsAndIdsHold` | src/plugins/projects/services/project-funding-sources-service.js:43-355 | In every state of every run of overlapping requests, ids read at any earlier point, each total is the sum of its columns and ids identify rows. |
| `LedgerRuns.OrphanFreeExactly` | src/plugins/projects/services/project-funding-sources-service.js:43-355 | Such a run shows no orphan in any of its states if and only if none of its statements deletes a row that has contributors then, or adds one to a row that is gone by then. |
| `ContributorCleanup.ChangesCommute` | src/plugins/projects/services/project-funding-contributors-service.js:140-162 | The parallel renames and deletes of a clean-up, in any order of any subset, go through and leave exactly the rows that the source rows determine. |
| `ContributorCleanup.OrderIsIrrelevant` | src/plugins/projects/services/project-funding-contributors-service.js:140-162 | Every order gives the same table. |
| `ContributorCleanup.OnlyCurrentNamesLeft` | src/plugins/projects/services/project-funding-contributors-service.js:164-243 | Afterwards only current names are left for that type, and rows that bore one are unchanged. |
| `ContributorCleanup.CleanupConserves` | src/plugins/projects/services/project-funding-contributors-service.js:140-243 | The amounts of a row change by exactly those of the removed names beyond the number added. |
| `FundingOutcomes.CleanupMoves` | src/plugins/projects/services/project-funding-contributors-service.js:140-162 | In each row of the project the contributor under the i-th removed name stands afterwards, with amount and flags, under the i-th added name, or is gone when there is none; names added beyond that have no contributor yet, and everything else stands. |
| `FundingOutcomes.PairingIsSettled` | src/plugins/projects/services/project-funding-contributors-service.js:209-223 | With sorted lists, and an order without ties, table and payload determine which name becomes which. |
| `ContributorNames.CleanupThenEnsure` | src/plugins/projects/services/project-funding-contributors-sync-service.js:324-403 | Cleaning up and then ensuring leaves every year of the range with exactly the current names, and rows that bore one as they were. |
| `ContributorRace.EditsExist` | src/plugins/projects/services/project-funding-contributors-service.js:164-243 | What a clean-up computes from the table it read is never refused when it runs on that table. |
| `ContributorRace.OrderMattersExactlyWhen` | src/plugins/projects/upsert-project/upsert-project.js:173-191 | The two steps give the same ledger in both orders if and only if there are no years or each row to be renamed lies in a listed year and carries no data; the comment calls them safe without condition. |
| `ContributorRace.LateRenameRefused` | src/plugins/projects/upsert-project/upsert-project.js:173-191 | When the ensure step slips in before a rename, the unique key refuses the rename if and only if some row of a listed year bears the old name. |
| `ContributorRace.RenamedAmountLost` | src/plugins/projects/upsert-project/upsert-project.js:173-191 | One contributor with data is renamed: cleaned up first the data survives, ensured first it is lost. |
| `ContributorRace.OneRenameRefused` | src/plugins/projects/upsert-project/upsert-project.js:173-191 | Whatever that contributor carries, its rename is refused after the ensure step. |
| `ContributorRace.PlaceholderRenameRefused` | src/plugins/projects/upsert-project/upsert-project.js:173-191 | Without data the two whole orders agree, and still the rename is refused in between. |
| `ContributorSplit.SplitOutcome` | src/plugins/projects/upsert-project/upsert-project.js:173-191 | With the names read first, whichever changes run before the placeholders are created and whichever after, in any order: the table is what the changes that are not refused leave, with the current names placed in it. |
| `ContributorSplit.SplitIsCleanExactly` | src/plugins/projects/upsert-project/upsert-project.js:173-191 | That is the table of a clean-up that went first if and only if no rename that comes later bears on a row of a listed year. |
| `ContributorSplit.SafeInParallelExactly` | src/plugins/projects/upsert-project/upsert-project.js:173-191 | The two steps are safe side by side - the whole orders agree, and every split of the changes around the creation of the placeholders leaves the clean table - if and only if there are no years, or the list loses no name, or it gains none. |
| `YearSave.StoredTotal` | src/plugins/projects/helpers/funding-sources-normalizers.js:288-300 | The stored total is the sum of the stored columns. |
| `SavedYears.ColumnExactly` | src/plugins/projects/helpers/funding-sources-normalizers.js:172-286 | Each of the fourteen columns: an amount that was entered is stored as its own number; a blank one is null, or for columns 3, 4 and 5 the sum of their list of contributors when that is not empty; and which columns keep the year. |
| `SavedYears.SumOfColumns` | src/plugins/projects/helpers/funding-sources-normalizers.js:288-300 | The recursive sum is the sum of the fourteen. |
| `SavedYears.SavedYearExactly` | src/plugins/projects/helpers/funding-sources-normalizers.js:310-354 | After a save the year has a row if and only if some amount other than 0 was entered or some list has a sum; its columns are those, its total their sum, its contributors the named entries with an amount, the last of a name counting, with the flags they had; all other years and contributors stand. |
| `SavedYears.EveryScheduleStores` | src/plugins/projects/helpers/funding-sources-normalizers.js:459-467 | The same of every row of distinct years after any interleaving of all statements, the amount of a contributor being one that was entered for it. |
| `YearSave.SyncedExactly` | src/plugins/projects/services/project-funding-contributors-sync-service.js:72-126 | After the sync the names of a row are exactly the wanted ones with their last amounts; secured and constrained survive, and other rows are untouched. |
| `YearSave.ColumnIsContributorSum` | src/plugins/projects/helpers/funding-sources-normalizers.js:233-354 | With the contribution left blank, for upserts that ran in this order: the stored column is the sum of the stored contributors of that type if and only if every entered amount is kept, that is, named and not overwritten by the same name later. |
| `YearSave.ColumnMatchesInEveryOrderExactly` | src/plugins/projects/helpers/funding-sources-normalizers.js:233-354 | It is so in whatever order the upserts run if and only if entries without a name carry nothing, and neither do entries whose name is entered twice. |
| `YearSave.DistinctNamesMatch` | src/plugins/projects/helpers/funding-sources-normalizers.js:233-354 | So with distinct, non-empty names of a type it always is. |
| `YearSchedules.RepeatedNameBreaksColumn` | src/plugins/projects/helpers/funding-sources-normalizers.js:233-354 | A contributor entered twice, with 1 and 2: the column is 3 and the one stored contributor carries 1 or 2, in every order. |
| `YearSave.OrderIrrelevantExactly` | src/plugins/projects/services/project-funding-contributors-sync-service.js:72-126 | Every order of the parallel upserts gives the same table if and only if entries with the same kind and name carry the same amount. |
| `YearInterleaving.MoveKeepsInv` | src/plugins/projects/helpers/funding-sources-normalizers.js:310-354 | Every statement of every row's processing keeps the ledger sound and each row's progress towards what its own upserts, in the order in which they ran, make of its year. |
| `YearInterleaving.EveryInterleavingIsSequential` | src/plugins/projects/helpers/funding-sources-normalizers.js:459-467 | Every interleaving of the statements of rows of distinct years is sound after each statement and, once all are done, holds for every year what saving the rows one by one holds, with each row's upserts in the order in which they ran. |
| `YearSchedules.ScheduleFor` | src/plugins/projects/helpers/funding-sources-normalizers.js:459-467 | Every order of every row's upserts is the order of some schedule that runs to the end. |
| `YearSchedules.SchedulesAgreeExactly` | src/plugins/projects/helpers/funding-sources-normalizers.js:459-467 | All schedules end in the same contents if and only if in each row with amounts entries with the same kind and name carry the same amount. |
| `YearSchedules.RepeatedNameDepends` | src/plugins/projects/helpers/funding-sources-normalizers.js:233-251 | A row with one contributor entered twice with different amounts, which validation accepts: what is stored depends on the schedule. |
| `YearRepeats.RepeatedYearsSoundExactly` | src/plugins/projects/helpers/funding-sources-normalizers.js:459-467 | For rows that may repeat a year: every statement of every schedule leaves a sound ledger if and only if no year has both a row without amounts and a row with a contributor. |
| `YearRepeats.ClashOrphans` | src/plugins/projects/helpers/funding-sources-normalizers.js:310-354 | Otherwise a schedule that inserts the contributor between the two deletions orphans it. |
| `YearInterleaving.NeverStuck` | src/plugins/projects/helpers/funding-sources-normalizers.js:310-354 | As long as a year is unfinished one of its statements can run. |
| `FundingServices.DeselectionsCommute` | src/plugins/projects/upsert-project/upsert-project.js:150-171 | The column nulling and contributor deletes that run side by side give the same ledger in either order. |
| `FundingServices.LeadsToInOrder` | src/plugins/projects/services/project-funding-contributors-service.js:140-162 | Making the changes in the order of issue is one of the complete orders of a clean-up. |
| `FundingServices.FundingService.Execute` | src/plugins/projects/services/project-funding-sources-service.js:29-355 | A refused statement changes nothing; the ghost record says whether the tables have been sound after every statement. |
| `FundingServices.FundingService.UpsertFundingValue` | src/plugins/projects/services/project-funding-sources-service.js:60-108 | The year row has the new columns and total and keeps its id, or gets a new one; nothing else changes. |
| `FundingServices.FundingService.DeleteFundingValueWithContributors` | src/plugins/projects/services/project-funding-sources-service.js:110-147 | The year and its contributors are gone, nothing else, in an order that orphans nobody. |
| `FundingServices.FundingService.DeleteAllFundingData` | src/plugins/projects/services/project-funding-sources-service.js:149-194 | All rows and contributors of the project are gone and no others. |
| `FundingServices.FundingService.ClearOutOfRangeFundingData` | src/plugins/projects/services/project-funding-sources-service.js:196-262 | Exactly the project's years outside the range are emptied, amounts of contributors included, while all rows, names and flags stay; sound after each statement. |
| `FundingServices.FundingService.NullSpecificFundingColumns` | src/plugins/projects/services/project-funding-sources-service.js:272-318 | The named columns are null, the others stand and each total is the sum of its fourteen columns, in all rows of the project only. |
| `FundingServices.FundingService.NullAdditionalGiaColumns` | src/plugins/projects/services/project-funding-sources-service.js:320-355 | The same for columns 7 to 13, the additional grant-in-aid. |
| `FundingServices.FundingService.DeleteContributorsByType` | src/plugins/projects/services/project-funding-contributors-service.js:254-290 | The contributors of one type of the project are gone and no others. |
| `FundingServices.FundingService.CleanupContributorsByName` | src/plugins/projects/services/project-funding-contributors-service.js:164-243 | Removed and added names are those the table has too many and too few, each list sorted; with distinct names no statement is refused, and the contributor under the i-th removed name stands under the i-th added one. |
| `FundingServices.FundingService.EnsureContributorFundingRows` | src/plugins/projects/services/project-funding-contributors-sync-service.js:290-403 | Every year from the first to the last has a row, and in it a contributor of each name; what was there stands, and what is new is empty. |
| `FundingServices.YearsResolved` | src/plugins/projects/services/project-funding-contributors-sync-service.js:290-318 | The given years when both are there, zero included; else the stored ones when neither is missing or zero; else none. |
| `FundingServices.FundingService.SyncFundingContributorsForYear` | src/plugins/projects/services/project-funding-contributors-sync-service.js:181-236 | The upserts and the deletion of stale rows give the synced table, soundly if the row exists. |
| `FundingServices.FundingService.ProcessFundingValueRow` | src/plugins/projects/helpers/funding-sources-normalizers.js:310-354 | One submitted year, stored as SavedYears.SavedYearExactly says, or deleted with its contributors when it has no amount; sound after each statement. |
| `FundingServices.FundingService.HandleFundingSourcesData` | src/plugins/projects/helpers/funding-sources-normalizers.js:427-467 | All submitted years, one by one: with distinct years each holds what its own row says, column by column and contributor by contributor, and all other years stand. |
| `AreaHierarchy.PreWarmAgreesExactlyWhen` | src/plugins/projects/helpers/area-hierarchy.js:47-53 | The pre-warmed entry has the parents that the lazy walk gives if and only if the parent is a PSO and the grandparent an EA area, where present; the comment calls the two identical. |
| `AreaHierarchy.FetchParentChain` | src/plugins/areas/services/area-service.js:557-582 | The chain is the existing parent followed by the existing grandparent. |
| `AreaHierarchy.ResolveShows` | src/plugins/projects/helpers/area-hierarchy.js:55-105 | For every table and id: name and sub-type of the row of that id; id and name, as PSO and as RFCC, of the row it names as its parent; the EA name from the row that one names; nothing where a row is missing. |
| `AreaHierarchy.ShowsIsOne` | src/plugins/projects/helpers/area-hierarchy.js:55-64 | That settles all six values. |
| `AreaHierarchy.ParentsPlaced` | src/plugins/areas/services/area-service.js:496-548 | The lazy parents are the nearest by type, the grandparent first; the pre-warmed ones are parent and grandparent in line. |
| `AreaHierarchy.HierarchyCache.GetCached` | src/plugins/projects/helpers/area-hierarchy-cache.js:10-17 | A hit is what the area table said within the last hour and changes nothing; an expired entry is a miss and is deleted, and no other. |
| `AreaHierarchy.HierarchyCache.SetCached` | src/plugins/projects/helpers/area-hierarchy-cache.js:19-21 | An entry lives for one hour. |
| `AreaHierarchy.HierarchyCache.ResolveAreaHierarchy` | src/plugins/projects/helpers/area-hierarchy.js:66-105 | Whatever filled the cache, the names are those of the rows as they are now or were at a reading of the last hour; without an unexpired entry, as they are now. |
| `AreaHierarchy.HierarchyCache.GetAreaByIdWithParents` | src/plugins/areas/services/area-service.js:496-548 | The area with its parents placed by type, or a cached lazy or pre-warmed answer of the last hour. |
| `AreaHierarchy.HierarchyCache.PreWarm` | src/plugins/projects/helpers/area-hierarchy.js:118-161 | Afterwards both kinds of entry of every area are there for 3,600,000 ms, with the names of its rows and its parent and grandparent. |
| `ProgrammeJoin.GroupBy` | src/plugins/downloads/programme/programme-generation-helpers.js:116-128 | The group of a key is exactly the rows with that key in their order, and no group is empty. |
| `ProgrammeJoin.MatchingKeeps` | src/plugins/downloads/programme/programme-generation-helpers.js:116-128 | Keeping the rows of a key keeps order and number: it distributes over joined lists, and keeps a single row if and only if that has the key. |
| `ProgrammeJoin.ResolveAreaHierarchiesBulk` | src/plugins/downloads/programme/programme-generation-helpers.js:130-193 | Three queries give for every id the names of its row and the rows above it, the same as the walk from that one area; missing areas and parents included. |
| `ProgrammeJoin.BuildProjectLookupMaps` | src/plugins/downloads/programme/programme-generation-helpers.js:272-292 | Every map holds what scanning its table for a key would give, the last row counting where keys repeat. |
| `ProgrammeJoin.LoadProjectsForFcerm1` | src/plugins/downloads/programme/programme-generation-helpers.js:322-366 | Each loaded project has its own rows of each table in their order, its last state, the contributors of its years and the names that belong to its area's rows, in the order of the projects. |
| `ProgrammeJoin.GroupingIsPartition` | src/plugins/downloads/programme/programme-generation-helpers.js:116-128 | Grouping by distinct owners loses no row and repeats none. |
| `ProgrammeJoin.EveryContributorShownOnce` | src/plugins/downloads/programme/programme-generation-helpers.js:341-346 | All projects of a download together show every fetched contributor exactly once. |
| `AreaPermissions.AccessIsHolding` | src/plugins/projects/helpers/project-permissions.js:12-19 | Comparing ids as text is the same as holding the area. |
| `AreaPermissions.ListedExactly` | src/plugins/areas/helpers/user-areas.js:84-140 | Listed if and only if the user is an administrator, or by the type of the first primary area: holds it as RMA; holds its parent as PSO Area and it is an RMA; holds as EA Area the parent of its PSO-Area parent. |
| `AreaPermissions.LegacyLabel` | src/plugins/areas/services/area-service.js:595-640 | The legacy label PSO lists what PSO Area lists, in any case; a label that is neither that nor EA Area lists nothing. |
| `AreaPermissions.UpdateExactly` | src/plugins/projects/helpers/project-permissions.js:95-119 | An update asks for the area or its PSO: the nearest one up by type, or after a pre-warm the parent. |
| `AreaPermissions.DownloadExactly` | src/plugins/projects/helpers/project-download-permissions.js:39-73 | A download is allowed also to who holds the EA area: the nearest by type, or after a pre-warm the grandparent. |
| `AreaPermissions.EaMayOnlyDownload` | src/plugins/projects/helpers/project-download-permissions.js:20-38 | In a typed table whoever holds only the EA area of a project may download it and not update it. |
| `AreaPermissions.ListedIsDownloadableExactly` | src/plugins/projects/helpers/project-download-permissions.js:39-73 | For any area table and each type of user: a listed area's project can be downloaded after a pre-warm if and only if the row that made it listed is still there, and after a lazy lookup if and only if that row is also found under its type. |
| `AreaPermissions.DualityFailsOnUntypedTables` | src/plugins/projects/helpers/project-download-permissions.js:39-73 | A table in which a listed area is refused: with a mistyped parent after a lazy lookup only, with a missing one always. |
| `AreaPermissions.PreWarmOnlyWidens` | src/plugins/projects/helpers/area-hierarchy.js:44-53 | Whoever may download after a lazy lookup may do so after a pre-warm. |
| `AreaPermissions.UpDownDuality` | src/plugins/areas/helpers/user-areas.js:84-140 | In a table typed as upsertArea requires, every listed area that exists can be downloaded, lazy or pre-warmed. |
| `AreaPermissions.ListedIffDownloadable` | src/plugins/projects/helpers/project-permissions.js:12-119 | For users whose areas are of one type, as account validation demands, listing and downloading give the same RMA areas. |
| `AreaPermissions.UpsertKeepsTypedExactlyWhen` | src/plugins/areas/services/area-service.js:309-327 | Creating an area keeps the table typed; replacing one does if and only if no child needs a parent of another type, which upsertArea does not check. |
| `AreaPermissions.UpsertExactly` | src/plugins/areas/services/area-service.js:309-327 | An RMA with a parent needs a PSO area there is, a PSO area an EA area; other types and areas without a parent are not checked. |
| `AreaPermissions.ReplacementBreaksTyped` | src/plugins/areas/services/area-service.js:201-220 | An accepted replacement of a PSO area by an authority leaves its RMA with a parent of the wrong type. |
| `AreaPermissions.ValidateDownloadPermissions` | src/plugins/projects/helpers/project-download-permissions.js:39-73 | The check with its cache: as long as the table has not changed within the hour, a listed area of a typed table is allowed however the cache was filled. |
| `Passwords.AcceptedExactly` | src/plugins/auth/services/password-service.js:74-163 | A reset goes through if and only if its token fits and the password is not among the latest limit + 1. |
| `Passwords.ResetExactly` | src/plugins/auth/services/password-service.js:74-132 | Refused first for a password that is current or among the newest rows up to the limit, then for a token that is not the stored one, the account untouched; else new password, no token, and the replaced one as the newest row, rows from the limit on gone. |
| `Passwords.RecentPasswordsDistinct` | src/plugins/auth/services/password-service.js:74-244 | As long as archiving works, any limit + 2 consecutive passwords are pairwise distinct, whatever else is attempted in between. |
| `Passwords.HistoryBounded` | src/plugins/auth/services/password-service.js:229-244 | The stored history never exceeds the limit while clean-up works. |
| `Passwords.OldPasswordsReturn` | src/plugins/auth/services/password-service.js:134-163 | The limit is exact: an older password may be chosen again. |
| `Passwords.InitialPasswordForgets` | src/plugins/auth/services/password-service.js:246-284 | setInitialPassword archives nothing and leaves a reset token stored, so the password it replaces can be reset to at once, with that token too. |
| `Passwords.DeletingBeyond` | src/plugins/auth/services/password-service.js:229-244 | Deleting the ids beyond the limit leaves exactly the newest rows. |
| `Passwords.PasswordService.CheckPasswordHistory` | src/plugins/auth/helpers/password-history.js:10-33 | Reused if and only if history is on and some row matches. |
| `Passwords.PasswordService.UpdateUserPassword` | src/plugins/auth/services/password-service.js:183-208 | Password and token change together, and only while the token is stored. |
| `Passwords.PasswordService.ArchiveOldPassword` | src/plugins/auth/services/password-service.js:210-227 | The replaced password is archived and the history trimmed, as far as the database lets it. |
| `Passwords.PasswordService.ResetPassword` | src/plugins/auth/services/password-service.js:74-132 | The whole reset equals the specification that the run theorems are about. |
| `PasswordRace.OneResetPerToken` | src/plugins/auth/services/password-service.js:183-208 | In any interleaving at most one reset succeeds per token. |
| `PasswordRace.ConsecutivePasswordsDiffer` | src/plugins/auth/services/password-service.js:74-132 | In any interleaving no change leaves the password what it was. |
| `PasswordRace.AloneIsReset` | src/plugins/auth/services/password-service.js:74-132 | Undisturbed, the steps of a reset end and make of account, outcome and log what the reset at once does. |
| `PasswordOrder.OrderlyResetsKeepDistinct` | src/plugins/auth/services/password-service.js:74-132 | In any interleaving in which no reset reads the history while a replaced password is still to be archived, any limit + 2 consecutive passwords are pairwise distinct. |
| `PasswordOrder.BroughtBackExactly` | src/plugins/auth/services/password-service.js:107-125 | In such a state a reset that starts now can bring the previous password back if and only if it is still to be archived, or the limit is 0. |
| `PasswordRace.LateArchiveAllowsReuse` | src/plugins/auth/services/password-service.js:107-125 | The history is no guarantee for overlapping resets: whatever the limit, a second reset that checks before the first has archived brings the replaced password back. |
| `ReferenceNumbers.ReferenceInjective` | src/plugins/projects/services/project-reference-service.js:7-13 | Equal reference numbers come from the same code and the same counter, whatever the codes look like. |
| `ReferenceNumbers.ReferenceReads` | src/plugins/projects/services/project-reference-service.js:7-13 | The code, C501E/, the high part, A/, the low part, A; each part the decimal number in at least three digits. |
| `ReferenceNumbers.IncrementedIsNext` | src/plugins/projects/services/project-reference-service.js:15-36 | The k-th step of a code yields high = (k - 1) / 999 and low = (k - 1) % 999 + 1. |
| `ReferenceNumbers.NumbersDiffer` | src/plugins/projects/services/project-reference-service.js:38-71 | No two numbers given out are the same. |
| `ReferenceNumbers.FitsExactly` | src/common/constants/common.js:146-147 | A number fits the pattern if and only if its code is one of the thirteen and its high counter is at most 999. |
| `ReferenceNumbers.KthFitsExactly` | src/common/constants/common.js:146-147 | So the k-th number of a known code fits if and only if k is at most 999,000. |
| `ReferenceNumbers.ReferenceService.GenerateProjectReferenceNumber` | src/plugins/projects/services/project-reference-service.js:38-71 | The next number of the code, different from all given out before. |
| `AccountAreas.NoChangeExactly` | src/plugins/accounts/services/account-upsert-service.js:286-311 | The sorted and joined text is canonical: no change is seen if and only if both lists are equal as multisets of area and primary flag. |
| `AccountAreas.JoinInjective` | src/plugins/accounts/services/account-upsert-service.js:306-311 | Joining loses nothing for texts without a bar. |
| `AccountAreas.AccountUpsertService.ManageUserAreas` | src/plugins/accounts/services/account-upsert-service.js:255-269 | The user ends with exactly the requested areas, others keep theirs, and the cache entry stays only when nothing changed. |
| `AccountAreas.AccountUpsertService.ReplaceUserAreas` | src/plugins/accounts/services/account-upsert-service.js:317-330 | The stored rows are the requested ones and the cache entry is evicted. |
| `FinancialYears.WithinExactly` | src/common/schemas/project/important-dates.js:66-94 | The range check holds if and only if the financial year of the date lies between start and end, or one is not set. |
| `FinancialYears.YearHoldsItsMonths` | src/plugins/projects/services/carbon-impact-calculator.js:61-66 | A date belongs to a financial year if and only if it lies from April of that year to March of the next. |
| `Timelines.WithinStoredYearsExactly` | src/plugins/projects/helpers/project-validations/perform-validations-timeline.js:57-145 | The stored years refuse a date if and only if its financial year is before a stored first one, after the stored last one, or there is no last one. |
| `Timelines.DateCheckedExactly` | src/common/schemas/project/important-dates.js:138-193 | Which dates get which error: outside the sent years first, then not after the stage compared with. |
| `Timelines.StageAcceptedExactly` | src/common/schemas/project/important-dates.js:138-193 | A save of one of the first four stages is accepted if and only if its date lies in the stored years, both sent dates lie in the sent ones, it follows the stage sent along and the years are in order. |
| `Timelines.ReadyForServiceAcceptedExactly` | src/common/schemas/project/important-dates.js:342-357 | The last stage is compared with the start of construction, or for STR and STU with that of the outline case. |
| `Timelines.EarliestAcceptedExactly` | src/common/schemas/project/important-dates.js:199-243 | The earliest start is accepted if and only if it lies before the outline case sent along, not in a past financial year, and the years are in order. |
| `Timelines.YearAcceptedExactly` | src/plugins/projects/helpers/project-validations/validate-financial-years.js:8-45 | A financial year on its own is accepted if and only if it is not over and does not pass the other stored one. |
| `Timelines.SaveKeepsValidatedExactly` | src/common/schemas/project/important-dates.js:138-193 | After an accepted save at any level that can write stages, years or type of an existing project, the stages it was compared with included: a validated timeline is still validated if and only if the stages that it changed, or whose neighbour, type or years it changed, without comparing them fit as well. |
| `Timelines.SaveExactly` | src/plugins/projects/helpers/project-mapper.js:99-109 | What is sent is written, a null empties the field, and what is left out stays. |
| `Timelines.StageKeepsValidatedExactly` | src/plugins/projects/helpers/levels/timeline.js:37-86 | For a stage before the last with the years sent back: if and only if the stage sent along lies in the years and after the stored one before it, and both precede the stored ones that follow them. |
| `Timelines.ReadyForServiceKeepsValidated` | src/plugins/projects/helpers/levels/timeline.js:93-113 | For the last stage nothing is left unchecked when its type and the stage it follows are sent back. |
| `Timelines.ContextBreaksOrder` | src/plugins/projects/helpers/levels/timeline.js:63-72 | A stored outline case of 2027 and an award in 2026 with its completion moved to 2026: accepted, and no longer in order although no later stage is stored. |
| `Timelines.OmittedContextBreaksOrder` | src/plugins/projects/helpers/levels/timeline.js:93-113 | Readiness for service before a stored start of construction that is left out of the payload: accepted. |
| `Timelines.LaterStageOvertaken` | src/plugins/projects/helpers/levels/timeline.js:77-86 | A start of construction moved beyond the stored readiness for service: accepted. |
| `Timelines.EarliestKeepsValidatedExactly` | src/plugins/projects/helpers/levels/timeline.js:130-141 | For the earliest start with grant-in-aid, the first year sent back: if and only if the start of the outline case sent along lies in the stored years and before the stages that follow it. |
| `Timelines.YearKeepsValidatedExactly` | src/plugins/projects/helpers/levels/initial.js:52-66 | For a financial year on its own: if and only if every stored stage lies in the new years. |
| `Timelines.TypeKeepsValidatedExactly` | src/plugins/projects/helpers/levels/initial.js:42-50 | For a project type: if and only if readiness for service follows the stage it now has to follow. |
| `Timelines.EarliestBreaksOrder` | src/plugins/projects/helpers/levels/timeline.js:130-141 | An earliest start in 5/2028 with the outline case moved from 4/2027 to 6/2028, its completion stored as 5/2027: accepted. |
| `Timelines.YearAndTypeBreak` | src/plugins/projects/helpers/levels/initial.js:42-66 | A first year after a stored stage, and a type under which the stored readiness no longer follows the start of construction: both accepted. |
| `Timelines.WindowInsideExactly` | src/plugins/projects/services/carbon-impact-calculator.js:61-84 | The years of a validated window are project years, and the mid-year too; the mid-year lies in the window if and only if the window is not empty, which holds on every full timeline. |
| `Timelines.MidYearExactly` | src/plugins/projects/services/carbon-impact-calculator.js:71-84 | The mid-year is half the sum of the two financial years, rounded down. |
| `Timelines.ShortenedMayBeInverted` | src/common/schemas/project/important-dates.js:342-357 | On an STR or STU timeline the window may be empty: readiness is not compared with the start of construction. |
| `Timelines.WindowConservesExactly` | src/plugins/projects/services/carbon-impact-calculator.js:130-147 | Funding before, within and after a window of project years adds up to all of it, for all rows, if and only if the window does not end more than a year before it starts. |
| `Timelines.WindowConserves` | src/plugins/projects/services/carbon-impact-calculator.js:130-147 | So for the construction total of a validated timeline under that condition. |
| `FinancialYears.BuildPlaceholderFundingValues` | src/plugins/projects/carbon-impact/carbon-impact.js:17-31 | One zero row per financial year of the window, in order, and none when it is empty. |
| `FinancialYears.YearLabelInjective` | src/plugins/projects/services/carbon-impact-calculator.js:105-107 | No two years share a rate label. |
| `FinancialYears.YearLabelMeans` | src/plugins/projects/services/carbon-impact-calculator.js:105-107 | For years of four digits: the year, a slash and the last two digits of the next, seven characters. |
| `FinancialYears.RateForYear` | src/plugins/projects/services/carbon-impact-calculator.js:101-125 | The rate of the latest eligible year not after the one asked for, and none if and only if there is no such year. |
| `FinancialYears.EarliestWithGiaExactly` | src/common/schemas/project/important-dates.js:199-243 | Accepted if and only if the date's financial year is not before the current one and the date precedes the outline case; refused with the first error if and only if it does not precede it. |

## Left out

- FundingServices.FundingService.HandleFundingSourcesData: saves the rows one after the other, where the source starts them together; every interleaving of their statements is the subject of YearInterleaving, YearSchedules and YearRepeats.
- FundingServices.FundingService.SyncFundingContributorsForYear: runs the upserts in the order of the list, where the source starts them together; for other orders see YearSave.OrderIrrelevantExactly and YearInterleaving.
- FundingServices.FundingService.CleanupContributorsByName: makes the changes in the order of issue; other orders are the subject of ContributorCleanup. With a repeated current name it promises only that the tables stay sound.
- ContributorSplit.SplitIsCleanExactly: is about a clean-up that reads the names before the placeholders are created; one that reads them later is ContributorRace.OrderMattersExactlyWhen, and one that reads the year rows before and the names after is left out.
- AreaHierarchy.HierarchyCache.ResolveAreaHierarchy: takes its three reads from one snapshot of the area table; with an area edited between them the answer may mix two tables.
- AreaHierarchy.HierarchyCache.GetAreaByIdWithParents: the same.
- YearInterleaving.EveryInterleavingIsSequential: is about rows of distinct years; of rows that repeat a year only soundness is shown, in YearRepeats.
- Timelines.SaveKeepsValidatedExactly: one save at a time; two that overlap are not modelled, nor is the first save, which creates a project without stages.
- SessionBounds.AcceptedSessionIsRecent: is about the session id; names, areas and other profile fields in the credentials are not modelled, only the role is.
- Passwords.RecentPasswordsDistinct: is about resets, one at a time; for overlapping ones see PasswordOrder and PasswordRace, and for setInitialPassword see Passwords.InitialPasswordForgets.
- ZipContents.ExtensionMeans: names are bytes; decoding of UTF-8 and lower-casing of letters beyond ASCII are left out.
- AccountAreas.AccountUpsertService.ManageUserAreas: one request at a time; the read and the replacement of two requests do not interleave.
- HTTP routing, Joi wiring, logging, metrics, configuration, and calls to Notify, the uploader and the spreadsheet builder: no hard property.
- S3 beyond range reads of a byte sequence; ZIP64 and encrypted archives, which the reader does not treat specially.
- bcrypt and SHA-256: a hash stands for the one text that it verifies. Signing and expiry of tokens.
- The width of database integers and of JavaScript numbers: amounts, ids and counters are unbounded.
- Trimming and rounding of submitted amounts before they are saved: an amount is blank or a row of digits.
- `upsertFundingContributor`, the single-contributor fallback path, which takes the same upsert as the sync.
- `localeCompare`, which orders the names paired in a clean-up: any comparison will do, and it is a parameter.
- Login lockout and failed attempts; account edits enter the session model as arbitrary changes of the user row that do not set a session.
- `fetchUserAreas` and its five-minute cache: credentials carry whatever areas it returned.
- Tables of the bulk loader that add nothing to the join: users and the presenter's columns.
- Timestamps, names of parents and other fields that the two forms of an area with its parents carry: only who the parents are is compared.
- The ordering of archived passwords with equal timestamps: rows are newest first.
- Carbon figures in floating point and their digests: only the years, the window and the choice of a rate are modelled.
- Scheduler locks, `distributed-lock-service.js`: not part of this model.
